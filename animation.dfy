/*
  The fireplace animation of pico/main.py: four 128 x 64 bitmaps, each paired
  with its mirror image, played forward and back in a ping-pong order, one
  full-screen draw_sprite and present per frame.
*/
module Animation {
  import opened Bits
  import opened FrameBuf
  import opened Protocol
  import opened Draw
  import Convert
  import Screen = Display

  /** The animation's frame size: the whole 128 x 64 screen. */
  const WIDTH := 128
  const HEIGHT := 64

  /** The bytes load_buf keeps of one frame file: ByteSize(128) * 64. */
  const FRAME_BYTES := 1024

  /** The play order: list(range(0, maxi)) + list(range(maxi - 2, 0, -1)). */
  function DisplayList(maxi: int): (r: seq<int>)
    ensures |r| == (if maxi > 0 then maxi else 0) + (if maxi > 2 then maxi - 2 else 0)
  {
    seq(if maxi > 0 then maxi else 0, i => i) + seq(if maxi > 2 then maxi - 2 else 0, i => maxi - 2 - i)
  }

  /** With at least two frames, the play order has 2 * maxi - 2 entries, every
      one a valid frame index, and every frame appears in it. */
  lemma DisplayListFrames(maxi: int)
    requires maxi >= 2
    ensures var r := DisplayList(maxi);
            |r| == 2 * maxi - 2 &&
            (forall i :: 0 <= i < |r| ==> 0 <= r[i] < maxi) &&
            (forall f :: 0 <= f < maxi ==> f in r)
  {
    var r := DisplayList(maxi);
    forall f | 0 <= f < maxi
      ensures f in r
    {
      assert r[f] == f;
    }
  }

  /** Every entry of the play order indexes the frame table, whatever maxi is. */
  lemma DisplayListInRange(maxi: int)
    ensures forall i :: 0 <= i < |DisplayList(maxi)| ==> 0 <= DisplayList(maxi)[i] < maxi
  {
  }

  /** The order runs forward, then back: the second half mirrors the first
      around the last frame, entry i matching entry 2 * maxi - 2 - i. */
  lemma DisplayListPingPong(maxi: int)
    requires maxi >= 2
    ensures var r := DisplayList(maxi);
            forall i, j :: maxi - 1 <= i < |r| && j == 2 * maxi - 2 - i ==> r[i] == r[j]
  {
    var r := DisplayList(maxi);
    forall i, j | maxi - 1 <= i < |r| && j == 2 * maxi - 2 - i
      ensures r[i] == r[j]
    {
      if i > maxi - 1 {
        assert r[i] == maxi - 2 - (i - maxi);
      }
    }
  }

  /** Two frame numbers one apart. */
  predicate Neighbours(a: int, b: int)
  {
    a - b == 1 || b - a == 1
  }

  /** Each step of the order moves to a neighbouring frame, and so does the
      step from the last entry back to the first when the order is replayed. */
  lemma DisplayListSteps(maxi: int)
    requires maxi >= 2
    ensures var r := DisplayList(maxi);
            (forall i, j :: 0 <= i && j == i + 1 && j < |r| ==> Neighbours(r[i], r[j])) &&
            Neighbours(r[|r| - 1], r[0])
  {
    var r := DisplayList(maxi);
    forall i, j | 0 <= i && j == i + 1 && j < |r|
      ensures Neighbours(r[i], r[j])
    {
      if i < maxi - 1 {
        assert r[j] == i + 1;
      } else if i == maxi - 1 {
        assert r[j] == maxi - 2;
      } else {
        assert r[i] == maxi - 2 - (i - maxi) && r[j] == maxi - 2 - (j - maxi);
      }
    }
    if maxi > 2 {
      assert r[|r| - 1] == 1;
    }
  }

  /** So the order never shows a frame twice in a row, the wrap included. */
  lemma DisplayListNoRepeats(maxi: int)
    requires maxi >= 2
    ensures var r := DisplayList(maxi);
            (forall i, j :: 0 <= i && j == i + 1 && j < |r| ==> r[i] != r[j]) && r[|r| - 1] != r[0]
  {
    var r := DisplayList(maxi);
    DisplayListSteps(maxi);
    forall i, j | 0 <= i && j == i + 1 && j < |r|
      ensures r[i] != r[j]
    {
      assert Neighbours(r[i], r[j]);
    }
  }

  /** A single frame would be shown over and over: the order is [0]. */
  lemma DisplayListOneFrame()
    ensures DisplayList(1) == [0]
  {
  }

  /** prepare_fireplace_animation: for each of the four frame files, the
      frame itself, then its mirror image, counting maxi up by one for each;
      then the play order of the maxi frames. `file(x)` stands for the bytes
      of px128w64h/vuur{x}.mono, which must hold a whole frame (framebuf
      refuses a shorter buffer). */
  method PrepareFireplace(display: Screen.Display, file: int -> seq<bv8>)
    returns (fbufArray: seq<Sprite>, displaylist: seq<int>)
    requires forall x :: 0 <= x < 4 ==> |file(x)| >= FRAME_BYTES
    ensures |fbufArray| == 8 && displaylist == DisplayList(8)
    ensures forall k :: 0 <= k < 4 ==>
              fbufArray[2 * k] == Sprite(WIDTH, HEIGHT, file(k)[..FRAME_BYTES]) &&
              fbufArray[2 * k + 1] == Sprite(WIDTH, HEIGHT, Convert.Mirrored(file(k)[..FRAME_BYTES], WIDTH, HEIGHT))
  {
    fbufArray := [];
    var maxi := 0;
    for x := 0 to 4
      invariant maxi == 2 * x == |fbufArray|
      invariant forall k :: 0 <= k < x ==>
                  fbufArray[2 * k] == Sprite(WIDTH, HEIGHT, file(k)[..FRAME_BYTES]) &&
                  fbufArray[2 * k + 1] == Sprite(WIDTH, HEIGHT, Convert.Mirrored(file(k)[..FRAME_BYTES], WIDTH, HEIGHT))
    {
      var buf := display.LoadBuf(file(x), WIDTH, HEIGHT);
      fbufArray := fbufArray + [Sprite(WIDTH, HEIGHT, buf[..])];
      maxi := maxi + 1;
      var mirrored := Convert.MirrorHorizontal(buf, WIDTH, HEIGHT);
      fbufArray := fbufArray + [Sprite(WIDTH, HEIGHT, mirrored[..])];
      maxi := maxi + 1;
    }
    displaylist := DisplayList(maxi);
  }

  /** Every frame of the table is a full-screen sprite. */
  predicate FullScreen(fbufArray: seq<Sprite>)
  {
    forall k :: 0 <= k < |fbufArray| ==> fbufArray[k].w == WIDTH && fbufArray[k].h == HEIGHT
  }

  /** Every entry of the play order indexes the frame table. */
  predicate Indexes(displaylist: seq<int>, fbufArray: seq<Sprite>)
  {
    forall i :: 0 <= i < |displaylist| ==> 0 <= displaylist[i] < |fbufArray|
  }

  /** The seven writes of presenting frame f of the table, laid out page-major. */
  function FrameWrites(addr: int, fbufArray: seq<Sprite>, f: int): (r: seq<Transfer>)
    requires 0 <= f < |fbufArray|
    ensures |r| == 7
  {
    PresentWrites(addr, Convert.PageMajor(fbufArray[f].bits, WIDTH, HEIGHT), WIDTH, HEIGHT)
  }

  /** The writes of playing `list`: for each entry in order, a present of the
      frame it names, laid out page-major. */
  function Frames(addr: int, fbufArray: seq<Sprite>, list: seq<int>): (r: seq<Transfer>)
    requires Indexes(list, fbufArray)
    ensures |r| == 7 * |list|
  {
    if list == [] then []
    else
      Frames(addr, fbufArray, list[..|list| - 1]) +
      FrameWrites(addr, fbufArray, list[|list| - 1])
  }

  /** Playing one more entry of the order adds that frame's seven writes. */
  lemma FramesSnoc(addr: int, fbufArray: seq<Sprite>, list: seq<int>, j: int)
    requires Indexes(list, fbufArray) && 0 <= j < |list|
    ensures Frames(addr, fbufArray, list[..j + 1]) ==
            Frames(addr, fbufArray, list[..j]) +
            FrameWrites(addr, fbufArray, list[j])
  {
    assert list[..j + 1][..j] == list[..j];
  }

  /** A sequence fact for the proofs below, not part of the driver. */
  lemma AppendAssoc<T>(a: seq<T>, b: seq<T>, c: seq<T>)
    ensures (a + b) + c == a + (b + c)
  {
  }

  /** Entry j of the play order is the j-th group of seven writes. */
  lemma {:induction false} FramesAt(addr: int, fbufArray: seq<Sprite>, list: seq<int>, j: int)
    requires Indexes(list, fbufArray) && 0 <= j < |list|
    ensures Frames(addr, fbufArray, list)[7 * j .. 7 * j + 7] ==
            FrameWrites(addr, fbufArray, list[j])
  {
    var n := |list| - 1;
    var init := list[..n];
    var a := Frames(addr, fbufArray, init);
    var b := FrameWrites(addr, fbufArray, list[n]);
    assert Frames(addr, fbufArray, list) == a + b;
    if j < n {
      FramesAt(addr, fbufArray, init, j);
      assert init[j] == list[j];
    } else {
      assert list[j] == list[n];
    }
    GroupOfConcat(a, b, n, j, FrameWrites(addr, fbufArray, list[j]));
  }

  /** Group j of seven in a + b, where a holds n groups and b one: a sequence
      fact for the proof above, not part of the driver. */
  lemma GroupOfConcat<T>(a: seq<T>, b: seq<T>, n: nat, j: nat, x: seq<T>)
    requires |a| == 7 * n && |b| == 7 && j <= n
    requires j < n ==> a[7 * j .. 7 * j + 7] == x
    requires j == n ==> b == x
    ensures (a + b)[7 * j .. 7 * j + 7] == x
  {
    if j < n {
      assert (a + b)[7 * j .. 7 * j + 7] == a[7 * j .. 7 * j + 7];
    } else {
      assert (a + b)[7 * j .. 7 * j + 7] == b;
    }
  }

  /** One iteration of play_fireplace_animation: a full-screen sprite passes
      draw_sprite's guard and replaces every pixel, so the present that
      follows sends the frame itself, laid out page-major. */
  method ShowFrame(display: Screen.Display, fbuf: Sprite)
    requires display.Valid() && display.width == WIDTH && display.height == HEIGHT
    requires fbuf.w == WIDTH && fbuf.h == HEIGHT
    modifies display.buffer, display.i2c
    ensures display.buffer[..] == Convert.PageMajor(fbuf.bits, WIDTH, HEIGHT)
    ensures display.i2c.log == old(display.i2c.log) + PresentWrites(display.address, display.buffer[..], WIDTH, HEIGHT)
  {
    ghost var before := display.buffer[..];
    display.DrawSprite(fbuf, 0, 0, WIDTH, HEIGHT);
    assert fbuf == Sprite(WIDTH, HEIGHT, fbuf.bits);
    FullScreenBlit(before, fbuf.bits, WIDTH, HEIGHT);
    display.Present();
  }

  /** The screen after the first n frames of the play order: the last of them, laid out page-major. */
  function Shown(fbufArray: seq<Sprite>, list: seq<int>, n: int): seq<bv8>
    requires Indexes(list, fbufArray) && 0 < n <= |list|
  {
    Convert.PageMajor(fbufArray[list[n - 1]].bits, WIDTH, HEIGHT)
  }

  /** One iteration of play_fireplace_animation, entry j of the order, after
      the writes of the entries before it. */
  method PlayStep(display: Screen.Display, fbufArray: seq<Sprite>, displaylist: seq<int>, j: int, ghost log0: seq<Transfer>)
    requires display.Valid() && display.width == WIDTH && display.height == HEIGHT
    requires Indexes(displaylist, fbufArray) && FullScreen(fbufArray) && 0 <= j < |displaylist|
    requires display.i2c.log == log0 + Frames(display.address, fbufArray, displaylist[..j])
    modifies display.buffer, display.i2c
    ensures display.i2c.log == log0 + Frames(display.address, fbufArray, displaylist[..j + 1])
    ensures display.buffer[..] == Shown(fbufArray, displaylist, j + 1)
  {
    var i := displaylist[j];
    ghost var played := Frames(display.address, fbufArray, displaylist[..j]);
    ShowFrame(display, fbufArray[i]);
    ghost var frame := PresentWrites(display.address, display.buffer[..], WIDTH, HEIGHT);
    assert frame == FrameWrites(display.address, fbufArray, i);
    FramesSnoc(display.address, fbufArray, displaylist, j);
    AppendAssoc(log0, played, frame);
  }

  /** play_fireplace_animation: each frame of the play order drawn over the
      whole screen at (0, 0) and presented. */
  method PlayFireplace(display: Screen.Display, fbufArray: seq<Sprite>, displaylist: seq<int>)
    requires display.Valid() && display.width == WIDTH && display.height == HEIGHT
    requires Indexes(displaylist, fbufArray) && FullScreen(fbufArray)
    modifies display.buffer, display.i2c
    ensures display.i2c.log == old(display.i2c.log) + Frames(display.address, fbufArray, displaylist)
    ensures displaylist != [] ==> display.buffer[..] == Shown(fbufArray, displaylist, |displaylist|)
  {
    for j := 0 to |displaylist|
      invariant display.i2c.log == old(display.i2c.log) + Frames(display.address, fbufArray, displaylist[..j])
      invariant j > 0 ==> display.buffer[..] == Shown(fbufArray, displaylist, j)
    {
      PlayStep(display, fbufArray, displaylist, j, old(display.i2c.log));
    }
    assert displaylist[..|displaylist|] == displaylist;
  }
}
