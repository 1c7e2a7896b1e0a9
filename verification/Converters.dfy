/** Colour arithmetic of the camera HAL (common/hardware/camera/Converters.h). A uint8_t is a
    `Byte`; the right shifts there are arithmetic, so they round towards minus infinity, as Dafny's
    division by a positive number does. */
module Converters {
  type Byte = b: int | 0 <= b < 256

  datatype Rgb = Rgb(r: Byte, g: Byte, b: Byte)

  datatype Yuv = Yuv(y: Byte, u: Byte, v: Byte)

  /** RGB32_t */
  datatype Rgb32 = Rgb32(r: Byte, g: Byte, b: Byte, a: Byte)

  /** The conversion of an int to uint8_t, and equally `& 0xff`. */
  function ToByte(x: int): Byte {
    x % 256
  }

  function Clamp(x: int): int {
    if x > 255 then 255 else if x < 0 then 0 else x
  }

  /** R8G8B8ToYUV before its casts to uint8_t. */
  function RawY(c: Rgb): int { (66 * c.r + 129 * c.g + 25 * c.b + 128) / 256 + 16 }

  function RawU(c: Rgb): int { (-38 * c.r - 74 * c.g + 112 * c.b + 128) / 256 + 128 }

  function RawV(c: Rgb): int { (112 * c.r - 94 * c.g - 18 * c.b + 128) / 256 + 128 }

  /** R8G8B8ToYUV */
  function R8G8B8ToYUV(c: Rgb): Yuv {
    Yuv(ToByte(RawY(c)), ToByte(RawU(c)), ToByte(RawV(c)))
  }

  /** The macros YUV2RO, YUV2GO and YUV2BO before clamping, on C = y - 16, D = u - 128, E = v - 128. */
  function RawR(y: int, u: int, v: int): int { (298 * (y - 16) + 409 * (v - 128) + 128) / 256 }

  function RawG(y: int, u: int, v: int): int { (298 * (y - 16) - 100 * (u - 128) - 208 * (v - 128) + 128) / 256 }

  function RawB(y: int, u: int, v: int): int { (298 * (y - 16) + 516 * (u - 128) + 128) / 256 }

  /** YUVToRGB32 */
  function YUVToRGB32(p: Yuv): Rgb32 {
    Rgb32(ToByte(Clamp(RawR(p.y, p.u, p.v))), ToByte(Clamp(RawG(p.y, p.u, p.v))), ToByte(Clamp(RawB(p.y, p.u, p.v))), 255)
  }

  /** YUVToRGB565: five, six and five bits, red lowest on a little endian machine. */
  function YUVToRGB565(p: Yuv): int {
    var r, g, b := Clamp(RawR(p.y, p.u, p.v)) / 8 % 32, Clamp(RawG(p.y, p.u, p.v)) / 4 % 64, Clamp(RawB(p.y, p.u, p.v)) / 8 % 32;
    (b * 64 + g) * 32 + r
  }

  /** Unpacking a pixel with the masks kRed5, kGreen6 and kBlue5 finds the top bits of what
      YUVToRGB32 computes. */
  lemma Rgb565IsCoarseRgb32(p: Yuv)
    ensures var (c, rgb) := (YUVToRGB32(p), YUVToRGB565(p));
      0 <= rgb < 0x10000 && rgb % 32 == c.r / 8 && rgb / 32 % 64 == c.g / 4 && rgb / 2048 == c.b / 8
  {
    TopBits(Clamp(RawR(p.y, p.u, p.v)), Clamp(RawG(p.y, p.u, p.v)), Clamp(RawB(p.y, p.u, p.v)));
  }

  lemma PackSplits(high: int, low: int, size: int)
    requires 0 <= low < size && (size == 32 || size == 64)
    ensures (high * size + low) / size == high && (high * size + low) % size == low
  {
  }

  lemma FewerBits(x: int)
    requires 0 <= x < 256
    ensures x / 8 % 32 == x / 8 == ToByte(x) / 8 < 32 && x / 4 % 64 == x / 4 == ToByte(x) / 4 < 64
  {
  }

  lemma DivTwice(x: nat)
    ensures x / 2048 == x / 32 / 64
  {
  }

  lemma TopBits(r: int, g: int, b: int)
    requires 0 <= r < 256 && 0 <= g < 256 && 0 <= b < 256
    ensures var rgb := (b / 8 % 32 * 64 + g / 4 % 64) * 32 + r / 8 % 32;
      && 0 <= rgb < 0x10000 && rgb % 32 == ToByte(r) / 8 && rgb / 32 % 64 == ToByte(g) / 4 && rgb / 2048 == ToByte(b) / 8
  {
    FewerBits(r);
    FewerBits(g);
    FewerBits(b);
    PackSplits(b / 8, g / 4, 64);
    PackSplits(b / 8 * 64 + g / 4, r / 8, 32);
    DivTwice((b / 8 * 64 + g / 4) * 32 + r / 8);
  }

  lemma YInRange(c: Rgb)
    ensures 16 <= RawY(c) <= 235
  {
  }

  lemma UInRange(c: Rgb)
    ensures 16 <= RawU(c) <= 240
  {
  }

  lemma VInRange(c: Rgb)
    ensures 16 <= RawV(c) <= 240
  {
  }

  lemma CastsKeep(y: int, u: int, v: int)
    requires 0 <= y < 256 && 0 <= u < 256 && 0 <= v < 256
    ensures Yuv(ToByte(y), ToByte(u), ToByte(v)) == Yuv(y, u, v)
  {
  }

  /** The encoder stays within the studio range of ITU-R BT.601, section 2.5, so its casts to
      uint8_t never truncate. */
  lemma NoTruncation(c: Rgb)
    ensures 16 <= RawY(c) <= 235 && 16 <= RawU(c) <= 240 && 16 <= RawV(c) <= 240
    ensures R8G8B8ToYUV(c) == Yuv(RawY(c), RawU(c), RawV(c))
  {
    YInRange(c);
    UInRange(c);
    VInRange(c);
    CastsKeep(RawY(c), RawU(c), RawV(c));
  }

  predicate Near(x: int, y: int, d: int) {
    -d <= x - y <= d
  }

  /** Clamping to the byte range never moves a value away from a byte. */
  lemma ClampNear(x: int, b: Byte, d: int)
    requires Near(x, b, d)
    ensures Near(ToByte(Clamp(x)), b, d)
  {
  }

  lemma RedNear(c: Rgb)
    ensures Near(RawR(RawY(c), RawU(c), RawV(c)), c.r, 2)
  {
  }

  lemma GreenNear(c: Rgb)
    ensures Near(RawG(RawY(c), RawU(c), RawV(c)), c.g, 2)
  {
  }

  lemma BlueNear(c: Rgb)
    ensures Near(RawB(RawY(c), RawU(c), RawV(c)), c.b, 3)
  {
  }

  /** Within 2 on red, 2 on green and 3 on blue. */
  predicate Close(d: Rgb32, c: Rgb) {
    Near(d.r, c.r, 2) && Near(d.g, c.g, 2) && Near(d.b, c.b, 3) && d.a == 255
  }

  lemma DecodeClose(p: Yuv, c: Rgb)
    requires Near(RawR(p.y, p.u, p.v), c.r, 2) && Near(RawG(p.y, p.u, p.v), c.g, 2) && Near(RawB(p.y, p.u, p.v), c.b, 3)
    ensures Close(YUVToRGB32(p), c)
  {
    ClampNear(RawR(p.y, p.u, p.v), c.r, 2);
    ClampNear(RawG(p.y, p.u, p.v), c.g, 2);
    ClampNear(RawB(p.y, p.u, p.v), c.b, 3);
  }

  /** Encoding any colour and decoding it again comes close to it. */
  lemma ColourRoundTrip(c: Rgb)
    ensures Close(YUVToRGB32(R8G8B8ToYUV(c)), c)
  {
    NoTruncation(c);
    RedNear(c);
    GreenNear(c);
    BlueNear(c);
    DecodeClose(R8G8B8ToYUV(c), c);
  }

  /** Greys have no chroma, black and white are the ends of the luma range, and a pixel without chroma
      is a grey. */
  lemma GreysHaveNoChroma(g: Byte, y: Byte)
    ensures R8G8B8ToYUV(Rgb(g, g, g)).u == 128 == R8G8B8ToYUV(Rgb(g, g, g)).v
    ensures R8G8B8ToYUV(Rgb(0, 0, 0)).y == 16 && R8G8B8ToYUV(Rgb(255, 255, 255)).y == 235
    ensures var p := YUVToRGB32(Yuv(y, 128, 128)); p.r == p.g == p.b
  {
    NoTruncation(Rgb(g, g, g));
  }

  /** The bounds are sharp. */
  lemma BoundsAttained()
    ensures YUVToRGB32(R8G8B8ToYUV(Rgb(0, 3, 246))).r == 0 + 2
    ensures YUVToRGB32(R8G8B8ToYUV(Rgb(0, 216, 201))).g == 216 - 2
    ensures YUVToRGB32(R8G8B8ToYUV(Rgb(0, 21, 255))).b == 255 - 3
  {
    assert R8G8B8ToYUV(Rgb(0, 3, 246)) == Yuv(42, 235, 110);
    assert R8G8B8ToYUV(Rgb(0, 216, 201)) == Yuv(144, 154, 35);
    assert R8G8B8ToYUV(Rgb(0, 21, 255)) == Yuv(51, 233, 102);
  }
}
