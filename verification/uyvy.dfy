/** The UYVY 4:2:2 decoder of `ptz-controller.cpp`: each 4-byte group
    `U Y1 V Y2` carries two pixels that share one chroma pair. A pixel is
    converted with the BT.601 integer approximation and every channel is
    clamped to 0..255; the result is packed as Qt's `0xAARRGGBB`. */
module Uyvy {
  import opened Common

  /** One byte of the frame buffer. */
  type Byte = b: int | 0 <= b < 256

  /** Channel maximum. */
  const ChannelMax: int := 255

  /** Opaque alpha of a packed pixel. */
  const OpaqueAlpha: int := 0xFF00_0000

  datatype Rgb = Rgb(r: int, g: int, b: int)

  predicate InRange(c: Rgb) {
    0 <= c.r <= ChannelMax && 0 <= c.g <= ChannelMax && 0 <= c.b <= ChannelMax
  }

  /** `v >> 8` on a signed `int`: an arithmetic shift, which rounds toward
      minus infinity. */
  function Shift8(v: int): (q: int)
    ensures 256 * q <= v < 256 * q + 256
  {
    v / 256
  }

  lemma Shift8Monotonic(a: int, b: int)
    requires a <= b
    ensures Shift8(a) <= Shift8(b)
  {
  }

  function Channel(v: int): (c: int)
    ensures 0 <= c <= ChannelMax
  {
    Clamp(Shift8(v), 0, ChannelMax)
  }

  /** One pixel from its luma and the centred chroma `d = U - 128`,
      `e = V - 128`. */
  function DecodePixel(luma: int, d: int, e: int): (c: Rgb)
    ensures InRange(c)
  {
    var c0 := luma - 16;
    Rgb(Channel(298 * c0 + 409 * e + 128),
        Channel(298 * c0 - 100 * d - 208 * e + 128),
        Channel(298 * c0 + 516 * d + 128))
  }

  /** `UYVYtoRGB`: the two pixels of one group. Every channel is in range
      whatever the inputs, the pixels differ only through their luma, and a
      neutral chroma gives grey. */
  function UYVYtoRGB(u: int, y1: int, v: int, y2: int): (r: (Rgb, Rgb))
    ensures InRange(r.0) && InRange(r.1)
    ensures y1 == y2 ==> r.0 == r.1
    ensures u == 128 && v == 128 ==> r.0.r == r.0.g == r.0.b && r.1.r == r.1.g == r.1.b
  {
    var d := u - 128;
    var e := v - 128;
    (DecodePixel(y1, d, e), DecodePixel(y2, d, e))
  }

  /** Brighter luma never gives a darker channel. */
  lemma LumaMonotonic(u: int, y1: int, v: int, y2: int)
    requires y1 <= y2
    ensures var p := UYVYtoRGB(u, y1, v, y2);
            p.0.r <= p.1.r && p.0.g <= p.1.g && p.0.b <= p.1.b
  {
    var d, e := u - 128, v - 128;
    var c1, c2 := y1 - 16, y2 - 16;
    Shift8Monotonic(298 * c1 + 409 * e + 128, 298 * c2 + 409 * e + 128);
    Shift8Monotonic(298 * c1 - 100 * d - 208 * e + 128, 298 * c2 - 100 * d - 208 * e + 128);
    Shift8Monotonic(298 * c1 + 516 * d + 128, 298 * c2 + 516 * d + 128);
    ClampMonotonic(Shift8(298 * c1 + 409 * e + 128), Shift8(298 * c2 + 409 * e + 128), 0, ChannelMax);
    ClampMonotonic(Shift8(298 * c1 - 100 * d - 208 * e + 128), Shift8(298 * c2 - 100 * d - 208 * e + 128), 0, ChannelMax);
    ClampMonotonic(Shift8(298 * c1 + 516 * d + 128), Shift8(298 * c2 + 516 * d + 128), 0, ChannelMax);
  }

  /** Video black (luma 16) and video white (luma 235) with neutral chroma
      decode to full black and full white. */
  lemma BlackAndWhite()
    ensures UYVYtoRGB(128, 16, 128, 235) == (Rgb(0, 0, 0), Rgb(255, 255, 255))
  {
  }

  /** `qRgb(r, g, b)`: opaque alpha and the low byte of each channel. */
  function Pack(c: Rgb): (p: int)
    ensures OpaqueAlpha <= p < 0x1_0000_0000
  {
    OpaqueAlpha + (c.r % 256) * 0x1_0000 + (c.g % 256) * 0x100 + c.b % 256
  }

  /** `qRed`, `qGreen` and `qBlue`. */
  function Unpack(p: int): Rgb {
    Rgb((p / 0x1_0000) % 256, (p / 0x100) % 256, p % 256)
  }

  /** Euclidean division recovers the quotient and remainder it was built
      from. */
  lemma DivModOf(p: int, q: int, rem: int, k: int)
    requires k == 0x100 || k == 0x1_0000
    requires 0 <= rem < k && p == q * k + rem
    ensures p / k == q && p % k == rem
  {
    if k == 0x100 {
      assert p == q * 0x100 + rem;
    } else {
      assert p == q * 0x1_0000 + rem;
    }
  }

  /** A channel-range colour survives packing. */
  lemma UnpackPack(c: Rgb)
    requires InRange(c)
    ensures Unpack(Pack(c)) == c
  {
    var p := Pack(c);
    assert c.r % 256 == c.r && c.g % 256 == c.g && c.b % 256 == c.b;
    DivModOf(p, 0xFF00 + c.r, c.g * 0x100 + c.b, 0x1_0000);
    DivModOf(0xFF00 + c.r, 0xFF, c.r, 256);
    DivModOf(p, 0xFF_0000 + c.r * 0x100 + c.g, c.b, 0x100);
    DivModOf(0xFF_0000 + c.r * 0x100 + c.g, 0xFF00 + c.r, c.g, 256);
  }

  // ---------------------------------------------------------------------
  // The frame

  /** Byte `i` of the buffer; reads past the end never happen for a frame
      of the stated size (`PairInBounds`), and give 0 here only so that the
      reference image below is total. */
  function ByteAt(data: seq<Byte>, i: nat): int {
    if i < |data| then data[i] else 0
  }

  /** Pixel `n` of a UYVY frame in raster order: pixel `b` (0 or 1) of
      group `n / 2`. */
  function PixelOf(data: seq<Byte>, n: nat): int {
    GroupPixel(data, n / 2, n % 2)
  }

  /** Pixel `b` of group `g`: its luma is byte `1 + 2b` of the group, its
      chroma the group's U and V bytes. */
  function GroupPixel(data: seq<Byte>, g: nat, b: nat): int {
    var group := 4 * g;
    Pack(DecodePixel(ByteAt(data, group + 1 + 2 * b), ByteAt(data, group) - 128, ByteAt(data, group + 2) - 128))
  }

  /** The source reads the group of an even column `x` of row `y` at
      `(y * width + x) * 2` to `+ 3`; for an even width these bytes all lie
      below `width * height * 2`. */
  lemma PairInBounds(width: nat, height: nat, x: nat, y: nat)
    requires width % 2 == 0 && x % 2 == 0
    requires x < width && y < height
    ensures (y * width + x) * 2 + 3 < width * height * 2
  {
    assert x + 2 <= width by {
      assert x == 2 * (x / 2) && width == 2 * (width / 2);
    }
    assert y * width + width == (y + 1) * width;
    assert (y + 1) * width <= height * width by {
      assert y + 1 <= height;
    }
  }

  /** Group `g` decodes to pixels `2g` and `2g + 1`. */
  lemma GroupDecodesPair(data: seq<Byte>, g: nat)
    requires 4 * g + 3 < |data|
    ensures var pair := UYVYtoRGB(data[4 * g], data[4 * g + 1], data[4 * g + 2], data[4 * g + 3]);
            && Pack(pair.0) == PixelOf(data, 2 * g)
            && Pack(pair.1) == PixelOf(data, 2 * g + 1)
  {
    PixelIndex(g, 0);
    PixelIndex(g, 1);
    ByteAtInside(data, 4 * g + 3);
  }

  /** Within the buffer `ByteAt` is plain indexing. */
  lemma ByteAtInside(data: seq<Byte>, last: nat)
    requires last < |data|
    ensures forall i :: 0 <= i <= last ==> ByteAt(data, i) == data[i]
  {
  }

  /** Pixel `2g + b` lies in group `g`, at parity `b`. */
  lemma PixelIndex(g: nat, b: nat)
    requires b < 2
    ensures (2 * g + b) / 2 == g && (2 * g + b) % 2 == b
  {
  }

  /** The `2 * half` pixels starting at pixel `2 * first`, one group at a
      time. */
  method DecodeRow(data: seq<Byte>, half: nat, first: nat) returns (row: seq<int>)
    requires 4 * (first + half) <= |data|
    ensures |row| == 2 * half
    ensures forall x: nat :: x < 2 * half ==> row[x] == PixelOf(data, 2 * first + x)
  {
    row := [];
    var k: nat := 0;
    while k < half
      invariant k <= half
      invariant |row| == 2 * k
      invariant forall x: nat :: x < 2 * k ==> row[x] == PixelOf(data, 2 * first + x)
    {
      var g := first + k;
      var index := 4 * g;
      GroupDecodesPair(data, g);
      var pair := UYVYtoRGB(data[index], data[index + 1], data[index + 2], data[index + 3]);
      row := row + [Pack(pair.0), Pack(pair.1)];
      k := k + 1;
    }
  }

  /** Row `y` of a frame `2 * half` pixels wide starts at group
      `y * half` and ends inside the buffer. */
  lemma RowFits(half: nat, height: nat, y: nat)
    requires y < height
    ensures 2 * (y * half) == y * (2 * half)
    ensures 4 * (y * half + half) <= (2 * half) * height * 2
  {
    assert y * half + half == (y + 1) * half;
    assert (y + 1) * half <= height * half by {
      assert y + 1 <= height;
    }
    assert (2 * half) * height * 2 == 4 * (height * half);
  }

  /** `convertUYVYtoRGB32`: decode the frame row by row, so that every
      pixel is written once, with the value the frame denotes. */
  method ConvertUYVYtoRGB32(data: seq<Byte>, width: nat, height: nat) returns (image: seq<seq<int>>)
    requires width % 2 == 0
    requires |data| >= width * height * 2
    ensures |image| == height
    ensures forall y :: 0 <= y < height ==> |image[y]| == width
    ensures forall y: nat, x: nat :: y < height && x < width ==>
              image[y][x] == PixelOf(data, y * width + x)
  {
    image := [];
    var y: nat := 0;
    while y < height
      invariant y <= height
      invariant |image| == y
      invariant forall j :: 0 <= j < y ==> |image[j]| == width
      invariant forall j: nat, x: nat :: j < y && x < width ==>
                  image[j][x] == PixelOf(data, j * width + x)
    {
      var half := width / 2;
      assert width == 2 * half;
      RowFits(half, height, y);
      var row := DecodeRow(data, half, y * half);
      image := image + [row];
      y := y + 1;
    }
  }
}
