/** The 72x40 pixel buffer of the display driver. The driver hands its
    360-byte `bytearray` to MicroPython's `framebuf.FrameBuffer` in MONO_VLSB
    format: byte `(y / 8) * 72 + x` holds the column of eight pixels of page
    `y / 8` at `x`, least significant bit at the top. That library is not
    part of this model; the layout and its clipping rule (pixels outside the
    buffer are ignored) are stated here as the assumption the drawing
    operations are modelled under. */
module MonoVlsb {

  const Width: int := 72
  const Height: int := 40
  /** width * height / 8 */
  const BufferSize: int := 360

  predicate OnScreen(x: int, y: int) {
    0 <= x < Width && 0 <= y < Height
  }

  function ByteIndex(x: int, y: int): (i: int)
    requires OnScreen(x, y)
    ensures 0 <= i < BufferSize
  {
    (y / 8) * Width + x
  }

  /** Two on-screen pixels share a byte exactly when they share the column
      and the page. */
  lemma ByteIndexShared(x: int, y: int, px: int, py: int)
    requires OnScreen(x, y) && OnScreen(px, py)
    ensures ByteIndex(x, y) == ByteIndex(px, py) <==> x == px && y / 8 == py / 8
  {
    assert 0 <= y / 8 < 5 && 0 <= py / 8 < 5;
  }

  /** `1 << k` for a bit position within a byte. */
  function Mask(k: int): (m: bv8)
    requires 0 <= k < 8
  {
    match k
    case 0 => 0x01
    case 1 => 0x02
    case 2 => 0x04
    case 3 => 0x08
    case 4 => 0x10
    case 5 => 0x20
    case 6 => 0x40
    case _ => 0x80
  }

  function BitOf(b: bv8, k: int): bool
    requires 0 <= k < 8
  {
    b & Mask(k) != 0
  }

  /** framebuf's set-pixel on one byte: clear bit `k`, then or in the colour. */
  function WithBit(b: bv8, k: int, on: bool): (r: bv8)
    requires 0 <= k < 8
  {
    (b & !Mask(k)) | (if on then Mask(k) else 0)
  }

  /** Setting bit `k` gives it the colour and keeps every other bit. */
  lemma WithBitEffect(b: bv8, k: int, on: bool, j: int)
    requires 0 <= k < 8 && 0 <= j < 8
    ensures BitOf(WithBit(b, k, on), j) == if j == k then on else BitOf(b, j)
  {
    var m, n := Mask(k), Mask(j);
    assert j != k ==> m & n == 0;
  }

  /** The pixel at (x, y) is lit. */
  function PixelAt(buf: seq<bv8>, x: int, y: int): bool
    requires |buf| == BufferSize && OnScreen(x, y)
  {
    BitOf(buf[ByteIndex(x, y)], y % 8)
  }

  /** `pixel(x, y, c)`: sets or clears one pixel; off-screen coordinates
      leave the buffer as it is. */
  function SetPixel(buf: seq<bv8>, x: int, y: int, on: bool): (r: seq<bv8>)
    requires |buf| == BufferSize
    ensures |r| == BufferSize
  {
    if OnScreen(x, y) then buf[ByteIndex(x, y) := WithBit(buf[ByteIndex(x, y)], y % 8, on)]
    else buf
  }

  /** Setting a pixel changes that pixel, to the colour given, and no other. */
  lemma PixelEffect(buf: seq<bv8>, x: int, y: int, on: bool, px: int, py: int)
    requires |buf| == BufferSize && OnScreen(px, py)
    ensures PixelAt(SetPixel(buf, x, y, on), px, py) ==
      if px == x && py == y then on else PixelAt(buf, px, py)
  {
    if OnScreen(x, y) {
      ByteIndexShared(x, y, px, py);
      WithBitEffect(buf[ByteIndex(x, y)], y % 8, on, py % 8);
      if ByteIndex(x, y) == ByteIndex(px, py) && py != y {
        assert py % 8 != y % 8;
      }
    }
  }

  /** `fill(c)`: every byte 0xFF for a non-zero colour, 0x00 otherwise. */
  function Filled(on: bool): (r: seq<bv8>)
    ensures |r| == BufferSize
  {
    seq(BufferSize, _ => if on then 0xFF else 0x00)
  }

  /** After a fill every pixel has the fill colour. */
  lemma FilledPixels(on: bool, px: int, py: int)
    requires OnScreen(px, py)
    ensures PixelAt(Filled(on), px, py) == on
  {
    var b := Filled(on)[ByteIndex(px, py)];
    assert b == if on then 0xFF else 0x00;
    var k := py % 8;
    assert BitOf(b, k) == on;
  }
}
