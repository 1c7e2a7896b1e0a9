/** Frame conversions of the camera HAL (common/hardware/camera/Converters.cpp,
    common/hardware/camera/PreviewWindow.cpp: NV12ToNV21,
    common/hardware/camera/V4L2CameraDevice.cpp: YUYVToNV12). The loops walk pointers through a
    frame; what they compute is stated pixel by pixel in closed form. */
module FrameFormats {
  import opened Converters

  // ---------------------------------------------------------------- positions

  /** Position of column x in row y of an array of rows of length w: y * w + x, by recursion, which
      keeps the arithmetic of the proofs linear. */
  function Pos(x: nat, y: nat, w: nat): nat {
    if y == 0 then x else w + Pos(x, y - 1, w)
  }

  /** The number of pixels of a w x h frame: w * h. */
  function Pixels(w: nat, h: nat): nat {
    Pos(0, h, w)
  }

  lemma {:induction false} PosIsProduct(x: nat, y: nat, w: nat)
    ensures Pos(x, y, w) == y * w + x
  {
    if y == 0 {
    } else {
      PosIsProduct(x, y - 1, w);
      assert (y - 1) * w + w == y * w;
    }
  }

  lemma {:induction false} PosShift(x: nat, y: nat, w: nat, d: nat)
    ensures Pos(x + d, y, w) == Pos(x, y, w) + d
  {
    if y == 0 {
    } else {
      PosShift(x, y - 1, w, d);
    }
  }

  lemma {:induction false} RowsIncrease(y: nat, h: nat, w: nat)
    requires y <= h
    ensures Pixels(w, y) <= Pixels(w, h)
    decreases h
  {
    if y == h {
    } else {
      RowsIncrease(y, h - 1, w);
    }
  }

  lemma PosInside(x: nat, y: nat, w: nat, h: nat)
    requires x < w && y < h
    ensures Pos(x, y, w) < Pixels(w, y + 1) <= Pixels(w, h)
  {
    PosShift(0, y, w, x);
    RowsIncrease(y + 1, h, w);
  }

  function RowOf(p: nat, w: nat): nat {
    if w == 0 || p < w then 0 else 1 + RowOf(p - w, w)
  }

  function ColOf(p: nat, w: nat): nat {
    if w == 0 || p < w then p else ColOf(p - w, w)
  }

  /** Row and column can be read off a position. */
  lemma {:induction false} PosSplits(x: nat, y: nat, w: nat)
    requires x < w
    ensures RowOf(Pos(x, y, w), w) == y && ColOf(Pos(x, y, w), w) == x
    decreases y
  {
    if y == 0 {
    } else {
      PosSplits(x, y - 1, w);
    }
  }

  /** A position inside the frame comes from a row and a column inside the frame. */
  lemma {:induction false} SplitPos(p: nat, w: nat, h: nat)
    requires p < Pixels(w, h)
    ensures RowOf(p, w) < h && ColOf(p, w) < w && p == Pos(ColOf(p, w), RowOf(p, w), w)
    decreases h
  {
    if h == 0 || (w > 0 && p < w) {
    } else {
      SplitPos(p - w, w, h - 1);
    }
  }

  // ---------------------------------------------------------------- rendering, in closed form

  /** Where the planes of a frame start, and the distance dUV between chroma samples. */
  datatype Planes = Planes(y: nat, u: nat, v: nat, dUV: nat)

  function At(frame: seq<Byte>, i: nat): Byte {
    if i < |frame| then frame[i] else 0
  }

  /** Address of the c-th sample of a chroma plane: base + dUV * c. */
  function Sample(base: nat, dUV: nat, c: nat): nat {
    if c == 0 then base else Sample(base, dUV, c - 1) + dUV
  }

  /** Every 2 x 2 block shares one chroma sample. */
  function ChromaIndex(x: nat, y: nat, w: nat): nat {
    Pos(x / 2, y / 2, w / 2)
  }

  function YuvAt(frame: seq<Byte>, planes: Planes, w: nat, x: nat, y: nat): Yuv {
    Yuv(At(frame, planes.y + Pos(x, y, w)),
        At(frame, Sample(planes.u, planes.dUV, ChromaIndex(x, y, w))),
        At(frame, Sample(planes.v, planes.dUV, ChromaIndex(x, y, w))))
  }

  function PixelAt<P>(frame: seq<Byte>, planes: Planes, convert: Yuv -> P, w: nat, p: nat): P {
    convert(YuvAt(frame, planes, w, ColOf(p, w), RowOf(p, w)))
  }

  /** The rendered image, row by row. */
  function Render<P>(frame: seq<Byte>, planes: Planes, convert: Yuv -> P, w: nat, h: nat): seq<P> {
    seq(Pixels(w, h), p requires 0 <= p < Pixels(w, h) => PixelAt(frame, planes, convert, w, p))
  }

  /** The pixel at (x, y) is the conversion of its own luma and of its block's chroma. */
  lemma RenderAt<P>(frame: seq<Byte>, planes: Planes, convert: Yuv -> P, w: nat, h: nat, x: nat, y: nat)
    requires x < w && y < h
    ensures Pos(x, y, w) < Pixels(w, h)
    ensures Render(frame, planes, convert, w, h)[Pos(x, y, w)] == convert(YuvAt(frame, planes, w, x, y))
  {
    PosInside(x, y, w, h);
    PosSplits(x, y, w);
  }

  /** Every address the rendering of a w x h frame needs lies inside an array of this length. */
  ghost predicate Fits(length: nat, planes: Planes, w: nat, h: nat) {
    && planes.y + Pixels(w, h) <= length
    && forall c: nat :: c < Pixels(w / 2, (h + 1) / 2) ==>
         Sample(planes.u, planes.dUV, c) < length && Sample(planes.v, planes.dUV, c) < length
  }

  lemma SampleStep(base: nat, dUV: nat, c: nat)
    ensures Sample(base, dUV, c + 1) == Sample(base, dUV, c) + dUV
  {
  }

  lemma {:induction false} SampleIsProduct(base: nat, dUV: nat, c: nat)
    ensures Sample(base, dUV, c) == base + dUV * c
  {
    if c == 0 {
    } else {
      SampleIsProduct(base, dUV, c - 1);
      assert dUV * (c - 1) + dUV == dUV * c;
    }
  }

  /** Columns 2 * i and 2 * i + 1 of row y share chroma sample Pos(i, y / 2, half), all inside the
      frame; and where the next pair is. */
  lemma PairAt(i: nat, y: nat, half: nat, h: nat)
    requires i < half && y < h
    ensures Pos(2 * i + 1, y, 2 * half) == Pos(2 * i, y, 2 * half) + 1 < Pixels(2 * half, h)
    ensures Pos(2 * (i + 1), y, 2 * half) == Pos(2 * i, y, 2 * half) + 2
    ensures ChromaIndex(2 * i, y, 2 * half) == ChromaIndex(2 * i + 1, y, 2 * half) == Pos(i, y / 2, half)
    ensures Pos(i, y / 2, half) < Pixels(half, (h + 1) / 2) && Pos(i + 1, y / 2, half) == Pos(i, y / 2, half) + 1
  {
    PosInside(2 * i + 1, y, 2 * half, h);
    PosShift(2 * i, y, 2 * half, 1);
    PosShift(2 * i, y, 2 * half, 2);
    PosInside(i, y / 2, half, (h + 1) / 2);
    PosShift(i, y / 2, half, 1);
  }

  /** The pixel at (x, y), when yAt, u and v are the addresses of its samples. */
  lemma PixelFrom<P>(frame: seq<Byte>, planes: Planes, convert: Yuv -> P, w: nat, h: nat, x: nat, y: nat,
                     yAt: nat, u: nat, v: nat)
    requires x < w && y < h && yAt < |frame| && u < |frame| && v < |frame|
    requires yAt == planes.y + Pos(x, y, w)
    requires u == Sample(planes.u, planes.dUV, ChromaIndex(x, y, w))
    requires v == Sample(planes.v, planes.dUV, ChromaIndex(x, y, w))
    ensures Pos(x, y, w) < Pixels(w, h)
    ensures Render(frame, planes, convert, w, h)[Pos(x, y, w)] == convert(Yuv(frame[yAt], frame[u], frame[v]))
  {
    RenderAt(frame, planes, convert, w, h, x, y);
    assert YuvAt(frame, planes, w, x, y) == Yuv(frame[yAt], frame[u], frame[v]);
  }

  /** The pointers are where they should be before column 2 * i of row y: n is the output position,
      u and v are the addresses of the chroma samples. */
  predicate AtPair(planes: Planes, half: nat, y: nat, i: nat, n: nat, u: nat, v: nat) {
    && n == Pos(2 * i, y, 2 * half)
    && u == Sample(planes.u, planes.dUV, Pos(i, y / 2, half))
    && v == Sample(planes.v, planes.dUV, Pos(i, y / 2, half))
  }

  /** The addresses of a pair are inside the arrays, and belong to columns 2 * i and 2 * i + 1. */
  lemma PairAddresses(length: nat, planes: Planes, half: nat, h: nat, y: nat, i: nat, n: nat, u: nat, v: nat)
    requires i < half && y < h && Fits(length, planes, 2 * half, h) && AtPair(planes, half, y, i, n, u, v)
    ensures n + 1 < Pixels(2 * half, h) && planes.y + n + 1 < length && u < length && v < length
    ensures n + 1 == Pos(2 * i + 1, y, 2 * half) && ChromaIndex(2 * i, y, 2 * half) == ChromaIndex(2 * i + 1, y, 2 * half)
    ensures u == Sample(planes.u, planes.dUV, ChromaIndex(2 * i, y, 2 * half))
    ensures v == Sample(planes.v, planes.dUV, ChromaIndex(2 * i, y, 2 * half))
  {
    PairAt(i, y, half, h);
  }

  lemma PairAdvances(planes: Planes, half: nat, h: nat, y: nat, i: nat, n: nat, u: nat, v: nat)
    requires i < half && y < h && AtPair(planes, half, y, i, n, u, v)
    ensures AtPair(planes, half, y, i + 1, n + 2, u + planes.dUV, v + planes.dUV)
  {
    PairAt(i, y, half, h);
    SampleStep(planes.u, planes.dUV, Pos(i, y / 2, half));
    SampleStep(planes.v, planes.dUV, Pos(i, y / 2, half));
  }

  /** The two pixels of a pair are those of the image. */
  lemma PairReady<P>(frame: seq<Byte>, planes: Planes, convert: Yuv -> P, half: nat, h: nat, y: nat,
                     i: nat, n: nat, u: nat, v: nat)
    requires i < half && y < h && Fits(|frame|, planes, 2 * half, h) && AtPair(planes, half, y, i, n, u, v)
    ensures n + 1 < Pixels(2 * half, h) && planes.y + n + 1 < |frame| && u < |frame| && v < |frame|
    ensures Render(frame, planes, convert, 2 * half, h)[n] == convert(Yuv(frame[planes.y + n], frame[u], frame[v]))
    ensures Render(frame, planes, convert, 2 * half, h)[n + 1] == convert(Yuv(frame[planes.y + n + 1], frame[u], frame[v]))
  {
    PairAddresses(|frame|, planes, half, h, y, i, n, u, v);
    PixelFrom(frame, planes, convert, 2 * half, h, 2 * i, y, planes.y + n, u, v);
    PixelFrom(frame, planes, convert, 2 * half, h, 2 * i + 1, y, planes.y + n + 1, u, v);
  }

  /** After the last pair of a row the output position is at the next row, and the chroma pointers
      at the next row of samples. */
  lemma RowEnd(planes: Planes, half: nat, y: nat, n: nat, u: nat, v: nat)
    requires AtPair(planes, half, y, half, n, u, v)
    ensures n == Pos(0, y + 1, 2 * half)
    ensures u == Sample(planes.u, planes.dUV, Pos(0, y / 2 + 1, half))
    ensures v == Sample(planes.v, planes.dUV, Pos(0, y / 2 + 1, half))
  {
    PosShift(0, y, 2 * half, 2 * half);
    PosShift(0, y / 2, half, half);
  }

  /** The body of the inner loop: two pixels with the same chroma. */
  method WritePair<P>(frame: array<Byte>, convert: Yuv -> P, rgb: array<P>, yAt: nat, u: nat, v: nat, n: nat)
    requires yAt + 1 < frame.Length && u < frame.Length && v < frame.Length && n + 1 < rgb.Length
    requires (rgb as object) != frame
    modifies rgb
    ensures rgb[..] == old(rgb[..])[n := convert(Yuv(frame[yAt], frame[u], frame[v]))]
                                   [n + 1 := convert(Yuv(frame[yAt + 1], frame[u], frame[v]))]
  {
    var nU, nV := frame[u], frame[v];
    rgb[n] := convert(Yuv(frame[yAt], nU, nV));
    rgb[n + 1] := convert(Yuv(frame[yAt + 1], nU, nV));
  }

  /** Two more correct pixels extend a correct prefix. */
  lemma PrefixGrows<P>(before: seq<P>, after: seq<P>, image: seq<P>, n: nat)
    requires n + 1 < |image| == |before| && before[..n] == image[..n]
    requires after == before[n := image[n]][n + 1 := image[n + 1]]
    ensures after[..n + 2] == image[..n + 2]
  {
    forall k | 0 <= k < n ensures after[k] == image[k] {
      assert before[..n][k] == image[..n][k];
    }
  }

  /** One pass of the inner loop. */
  method RenderPair<P>(frame: array<Byte>, planes: Planes, convert: Yuv -> P, rgb: array<P>, ghost half: nat,
                       ghost h: nat, ghost y: nat, ghost i: nat, n: nat, u: nat, v: nat)
    requires i < half && y < h && Fits(frame.Length, planes, 2 * half, h) && AtPair(planes, half, y, i, n, u, v)
    requires rgb.Length == Pixels(2 * half, h) && (rgb as object) != frame
    requires n <= rgb.Length && rgb[..n] == Render(frame[..], planes, convert, 2 * half, h)[..n]
    modifies rgb
    ensures n + 2 <= rgb.Length && AtPair(planes, half, y, i + 1, n + 2, u + planes.dUV, v + planes.dUV)
    ensures rgb[..n + 2] == Render(frame[..], planes, convert, 2 * half, h)[..n + 2]
  {
    PairReady(frame[..], planes, convert, half, h, y, i, n, u, v);
    PairAdvances(planes, half, h, y, i, n, u, v);
    ghost var before := rgb[..];
    WritePair(frame, convert, rgb, planes.y + n, u, v, n);
    PrefixGrows(before, rgb[..], Render(frame[..], planes, convert, 2 * half, h), n);
  }

  /** The inner loop of _YUV420SToRGB32 and _YUV420SToRGB565: from the start of row y, advance the
      pointers over the row. */
  method RenderRow<P>(frame: array<Byte>, planes: Planes, convert: Yuv -> P, rgb: array<P>,
                      w: nat, ghost half: nat, ghost h: nat, ghost y: nat, n0: nat, u0: nat, v0: nat)
    returns (n: nat, u: nat, v: nat)
    requires w == 2 * half && y < h && rgb.Length == Pixels(w, h) && Fits(frame.Length, planes, w, h)
    requires (rgb as object) != frame && AtPair(planes, half, y, 0, n0, u0, v0)
    requires n0 <= rgb.Length && rgb[..n0] == Render(frame[..], planes, convert, w, h)[..n0]
    modifies rgb
    ensures n <= rgb.Length && AtPair(planes, half, y, half, n, u, v)
    ensures rgb[..n] == Render(frame[..], planes, convert, w, h)[..n]
  {
    var x := 0;
    ghost var i := 0;
    n, u, v := n0, u0, v0;
    while x < w
      invariant i <= half && x == 2 * i
      invariant n <= rgb.Length && AtPair(planes, half, y, i, n, u, v)
      invariant rgb[..n] == Render(frame[..], planes, convert, w, h)[..n]
    {
      RenderPair(frame, planes, convert, rgb, half, h, y, i, n, u, v);
      n, x, u, v := n + 2, x + 2, u + planes.dUV, v + planes.dUV;
      i := i + 1;
    }
  }

  /** _YUV420SToRGB32 and _YUV420SToRGB565, which differ in the pixel conversion only: two rows
      share a row of chroma samples, so U and V are put back after each even row and moved on after
      each odd one. */
  method YUV420SToRGB<P>(frame: array<Byte>, planes: Planes, convert: Yuv -> P, rgb: array<P>, w: nat, h: nat)
    requires w % 2 == 0 && rgb.Length == Pixels(w, h) && Fits(frame.Length, planes, w, h)
    requires (rgb as object) != frame
    modifies rgb
    ensures rgb[..] == Render(frame[..], planes, convert, w, h)
  {
    var n, u, v := 0, planes.u, planes.v;
    var uPos, vPos := u, v;
    ghost var half := w / 2;
    var y := 0;
    while y < h
      invariant 0 <= y <= h && w == 2 * half && n == Pos(0, y, w) <= Pixels(w, h)
      invariant u == uPos == Sample(planes.u, planes.dUV, Pos(0, y / 2, half))
      invariant v == vPos == Sample(planes.v, planes.dUV, Pos(0, y / 2, half))
      invariant rgb[..n] == Render(frame[..], planes, convert, w, h)[..n]
    {
      n, u, v := RenderRow(frame, planes, convert, rgb, w, half, h, y, n, u, v);
      RowEnd(planes, half, y, n, u, v);
      if y % 2 == 1 {
        uPos, vPos := u, v;
      } else {
        u, v := uPos, vPos;
      }
      y := y + 1;
    }
  }

  // ---------------------------------------------------------------- frame layouts

  /** The planes NV12ToRGB32, NV21ToRGB32, YU12ToRGB32 and YV12ToRGB32 pass on. */
  function Nv12(w: nat, h: nat): Planes { Planes(0, Pixels(w, h), Pixels(w, h) + 1, 2) }

  function Nv21(w: nat, h: nat): Planes { Planes(0, Pixels(w, h) + 1, Pixels(w, h), 2) }

  function Yu12(w: nat, h: nat): Planes { Planes(0, Pixels(w, h), Pixels(w, h) + Pixels(w, h) / 4, 1) }

  function Yv12(w: nat, h: nat): Planes { Planes(0, Pixels(w, h) + Pixels(w, h) / 4, Pixels(w, h), 1) }

  /** Bytes of a 4:2:0 frame. */
  function FrameSize(w: nat, h: nat): nat {
    Pixels(w, h) + Pixels(w, h) / 2
  }

  predicate EvenSized(w: nat, h: nat) {
    w % 2 == 0 && h % 2 == 0
  }

  /** An even-sized frame has a quarter as many chroma samples as pixels. */
  lemma {:induction false} QuarterChroma(w: nat, h: nat)
    requires EvenSized(w, h)
    ensures Pixels(w, h) == 4 * Pixels(w / 2, h / 2)
  {
    if h == 0 {
    } else {
      QuarterChroma(w, h - 2);
      assert Pixels(w, h - 1) == w + Pixels(w, h - 2);
      assert Pixels(w / 2, h / 2) == w / 2 + Pixels(w / 2, h / 2 - 1);
    }
  }

  lemma LayoutsFit(w: nat, h: nat)
    requires EvenSized(w, h)
    ensures Fits(FrameSize(w, h), Nv12(w, h), w, h) && Fits(FrameSize(w, h), Nv21(w, h), w, h)
    ensures Fits(FrameSize(w, h), Yu12(w, h), w, h) && Fits(FrameSize(w, h), Yv12(w, h), w, h)
  {
    QuarterChroma(w, h);
    var n := Pixels(w, h);
    forall c: nat, base: nat
      ensures Sample(base, 2, c) == base + 2 * c && Sample(base, 1, c) == base + c
    {
      SampleIsProduct(base, 2, c);
      SampleIsProduct(base, 1, c);
    }
  }

  method NV12ToRGB32(nv12: array<Byte>, rgb: array<Rgb32>, w: nat, h: nat)
    requires EvenSized(w, h) && nv12.Length == FrameSize(w, h) && rgb.Length == Pixels(w, h)
    modifies rgb
    ensures rgb[..] == Render(nv12[..], Nv12(w, h), YUVToRGB32, w, h)
  {
    LayoutsFit(w, h);
    YUV420SToRGB(nv12, Nv12(w, h), YUVToRGB32, rgb, w, h);
  }

  method NV21ToRGB32(nv21: array<Byte>, rgb: array<Rgb32>, w: nat, h: nat)
    requires EvenSized(w, h) && nv21.Length == FrameSize(w, h) && rgb.Length == Pixels(w, h)
    modifies rgb
    ensures rgb[..] == Render(nv21[..], Nv21(w, h), YUVToRGB32, w, h)
  {
    LayoutsFit(w, h);
    YUV420SToRGB(nv21, Nv21(w, h), YUVToRGB32, rgb, w, h);
  }

  method YU12ToRGB32(yu12: array<Byte>, rgb: array<Rgb32>, w: nat, h: nat)
    requires EvenSized(w, h) && yu12.Length == FrameSize(w, h) && rgb.Length == Pixels(w, h)
    modifies rgb
    ensures rgb[..] == Render(yu12[..], Yu12(w, h), YUVToRGB32, w, h)
  {
    LayoutsFit(w, h);
    YUV420SToRGB(yu12, Yu12(w, h), YUVToRGB32, rgb, w, h);
  }

  method YV12ToRGB32(yv12: array<Byte>, rgb: array<Rgb32>, w: nat, h: nat)
    requires EvenSized(w, h) && yv12.Length == FrameSize(w, h) && rgb.Length == Pixels(w, h)
    modifies rgb
    ensures rgb[..] == Render(yv12[..], Yv12(w, h), YUVToRGB32, w, h)
  {
    LayoutsFit(w, h);
    YUV420SToRGB(yv12, Yv12(w, h), YUVToRGB32, rgb, w, h);
  }

  lemma InterleavedPlaces(w: nat, h: nat, x: nat, y: nat)
    requires EvenSized(w, h) && x < w && y < h
    ensures var n, c := Pixels(w, h), ChromaIndex(x, y, w);
      && Pos(x, y, w) < n && n + 2 * c + 1 < FrameSize(w, h)
      && Sample(n, 2, c) == n + 2 * c && Sample(n + 1, 2, c) == n + 2 * c + 1
  {
    QuarterChroma(w, h);
    PosInside(x, y, w, h);
    PosInside(x / 2, y / 2, w / 2, h / 2);
    SampleIsProduct(Pixels(w, h), 2, ChromaIndex(x, y, w));
    SampleIsProduct(Pixels(w, h) + 1, 2, ChromaIndex(x, y, w));
  }

  /** The samples of pixel (x, y) in an NV12 and in an NV21 frame. */
  lemma InterleavedSamples(frame: seq<Byte>, w: nat, h: nat, x: nat, y: nat)
    requires EvenSized(w, h) && |frame| == FrameSize(w, h) && x < w && y < h
    ensures var n, c := Pixels(w, h), 2 * ChromaIndex(x, y, w);
      && Pos(x, y, w) < n && n + c + 1 < |frame|
      && YuvAt(frame, Nv12(w, h), w, x, y) == Yuv(frame[Pos(x, y, w)], frame[n + c], frame[n + c + 1])
      && YuvAt(frame, Nv21(w, h), w, x, y) == Yuv(frame[Pos(x, y, w)], frame[n + c + 1], frame[n + c])
  {
    InterleavedPlaces(w, h, x, y);
  }

  lemma ChromaIndexIsProduct(x: nat, y: nat, w: nat)
    ensures ChromaIndex(x, y, w) == (y / 2) * (w / 2) + x / 2
  {
    PosIsProduct(x / 2, y / 2, w / 2);
  }

  lemma PlanarPlaces(w: nat, h: nat, x: nat, y: nat)
    requires EvenSized(w, h) && x < w && y < h
    ensures var n, c := Pixels(w, h), ChromaIndex(x, y, w);
      && Pos(x, y, w) < n && n + n / 4 + c < FrameSize(w, h)
      && Sample(n, 1, c) == n + c && Sample(n + n / 4, 1, c) == n + n / 4 + c
  {
    QuarterChroma(w, h);
    PosInside(x, y, w, h);
    PosInside(x / 2, y / 2, w / 2, h / 2);
    SampleIsProduct(Pixels(w, h), 1, ChromaIndex(x, y, w));
    SampleIsProduct(Pixels(w, h) + Pixels(w, h) / 4, 1, ChromaIndex(x, y, w));
  }

  lemma YuvFrom(frame: seq<Byte>, planes: Planes, w: nat, x: nat, y: nat, yAt: nat, u: nat, v: nat)
    requires yAt < |frame| && u < |frame| && v < |frame|
    requires yAt == planes.y + Pos(x, y, w)
    requires u == Sample(planes.u, planes.dUV, ChromaIndex(x, y, w)) && v == Sample(planes.v, planes.dUV, ChromaIndex(x, y, w))
    ensures YuvAt(frame, planes, w, x, y) == Yuv(frame[yAt], frame[u], frame[v])
  {
  }

  /** The samples of pixel (x, y) in a planar frame with the U plane first, and with the V plane first. */
  lemma PlanarSamples(frame: seq<Byte>, w: nat, h: nat, x: nat, y: nat)
    requires EvenSized(w, h) && |frame| == FrameSize(w, h) && x < w && y < h
    ensures var n, c := Pixels(w, h), ChromaIndex(x, y, w);
      && Pos(x, y, w) < n && n + n / 4 + c < |frame|
      && YuvAt(frame, Yu12(w, h), w, x, y) == Yuv(frame[Pos(x, y, w)], frame[n + c], frame[n + n / 4 + c])
      && YuvAt(frame, Yv12(w, h), w, x, y) == Yuv(frame[Pos(x, y, w)], frame[n + n / 4 + c], frame[n + c])
  {
    PlanarPlaces(w, h, x, y);
    var n, c, p := Pixels(w, h), ChromaIndex(x, y, w), Pos(x, y, w);
    YuvFrom(frame, Yu12(w, h), w, x, y, p, n + c, n + n / 4 + c);
    YuvFrom(frame, Yv12(w, h), w, x, y, p, n + n / 4 + c, n + c);
  }

  // ---------------------------------------------------------------- NV12 to NV21

  /** The chroma bytes behind the first n bytes, swapped pairwise. */
  function SwapChroma(frame: seq<Byte>, n: nat): seq<Byte> {
    seq(|frame|, i requires 0 <= i < |frame| =>
      if i < n then frame[i] else if (i - n) % 2 == 0 then At(frame, i + 1) else frame[i - 1])
  }

  /** The body of the loop in NV12ToNV21. */
  method SwapPair(nv12: array<Byte>, nv21: array<Byte>, n: nat, i: nat)
    requires nv12.Length == nv21.Length && nv12 != nv21 && n + i + 1 < nv12.Length && i % 2 == 0
    requires nv21[..n + i] == SwapChroma(nv12[..], n)[..n + i]
    modifies nv21
    ensures nv21[..n + i + 2] == SwapChroma(nv12[..], n)[..n + i + 2]
  {
    ghost var before := nv21[..];
    SwappedPair(nv12[..], n, i / 2);
    nv21[n + i] := nv12[n + i + 1];
    nv21[n + i + 1] := nv12[n + i];
    PrefixGrows(before, nv21[..], SwapChroma(nv12[..], n), n + i);
  }

  /** NV12ToNV21 */
  method NV12ToNV21(nv12: array<Byte>, nv21: array<Byte>, w: nat, h: nat)
    requires EvenSized(w, h) && nv12.Length == nv21.Length == FrameSize(w, h) && nv12 != nv21
    modifies nv21
    ensures nv21[..] == SwapChroma(nv12[..], Pixels(w, h))
  {
    QuarterChroma(w, h);
    var n := Pixels(w, h);
    forall i | 0 <= i < n { nv21[i] := nv12[i]; }
    var i := 0;
    while i < n / 2
      invariant 0 <= i <= n / 2 && i % 2 == 0
      invariant nv21[..n + i] == SwapChroma(nv12[..], n)[..n + i]
    {
      SwapPair(nv12, nv21, n, i);
      i := i + 2;
    }
  }

  lemma SwappedPair(frame: seq<Byte>, n: nat, c: nat)
    requires n + 2 * c + 1 < |frame|
    ensures SwapChroma(frame, n)[n + 2 * c] == frame[n + 2 * c + 1]
    ensures SwapChroma(frame, n)[n + 2 * c + 1] == frame[n + 2 * c]
  {
  }

  /** Swapping twice is the identity. */
  lemma SwapTwice(frame: seq<Byte>, w: nat, h: nat)
    requires EvenSized(w, h) && |frame| == FrameSize(w, h)
    ensures SwapChroma(SwapChroma(frame, Pixels(w, h)), Pixels(w, h)) == frame
  {
    var n := Pixels(w, h);
    var twice := SwapChroma(SwapChroma(frame, n), n);
    QuarterChroma(w, h);
    forall k | 0 <= k < |frame| ensures twice[k] == frame[k] {
      if k >= n {
        var c := (k - n) / 2;
        SwappedPair(frame, n, c);
        SwappedPair(SwapChroma(frame, n), n, c);
        assert k == n + 2 * c || k == n + 2 * c + 1;
      }
    }
  }

  lemma SwapKeepsPixel(frame: seq<Byte>, w: nat, h: nat, x: nat, y: nat)
    requires EvenSized(w, h) && |frame| == FrameSize(w, h) && x < w && y < h
    ensures YuvAt(SwapChroma(frame, Pixels(w, h)), Nv21(w, h), w, x, y) == YuvAt(frame, Nv12(w, h), w, x, y)
  {
    InterleavedSamples(frame, w, h, x, y);
    InterleavedSamples(SwapChroma(frame, Pixels(w, h)), w, h, x, y);
    SwappedPair(frame, Pixels(w, h), ChromaIndex(x, y, w));
  }

  /** Rendering the swapped frame as NV21 gives the image of the NV12 frame. */
  lemma SwapKeepsImage<P>(frame: seq<Byte>, convert: Yuv -> P, w: nat, h: nat)
    requires EvenSized(w, h) && |frame| == FrameSize(w, h)
    ensures Render(SwapChroma(frame, Pixels(w, h)), Nv21(w, h), convert, w, h) == Render(frame, Nv12(w, h), convert, w, h)
  {
    var swapped := SwapChroma(frame, Pixels(w, h));
    forall p | 0 <= p < Pixels(w, h)
      ensures PixelAt(swapped, Nv21(w, h), convert, w, p) == PixelAt(frame, Nv12(w, h), convert, w, p)
    {
      SplitPos(p, w, h);
      SwapKeepsPixel(frame, w, h, ColOf(p, w), RowOf(p, w));
    }
  }

  // ---------------------------------------------------------------- YUYV to NV12

  /** What YUYVToNV12 should write: every luma of the YUYV frame, and the chroma of its even rows. */
  function PackNv12(yuyv: seq<Byte>, w: nat, h: nat): seq<Byte> {
    seq(FrameSize(w, h), k requires 0 <= k < FrameSize(w, h) =>
      if k < Pixels(w, h) then At(yuyv, 2 * k) else ChromaByte(yuyv, w, k - Pixels(w, h)))
  }

  /** Byte k of the interleaved chroma plane. */
  function ChromaByte(yuyv: seq<Byte>, w: nat, k: nat): Byte {
    At(yuyv, 2 * Pos(ColOf(k, w), 2 * RowOf(k, w), w) + 1)
  }

  /** Rows of chroma bytes: half as many as rows of pixels. */
  lemma {:induction false} HalfRows(w: nat, r: nat)
    ensures Pixels(w, 2 * r) == 2 * Pixels(w, r)
  {
    if r == 0 {
    } else {
      HalfRows(w, r - 1);
      assert Pixels(w, 2 * r) == w + Pixels(w, 2 * r - 1);
    }
  }

  /** Where the bytes of rows 2 * r and 2 * r + 1 go: two rows of lumas and one of chroma bytes. */
  lemma RowPairPlaces(w: nat, h: nat, r: nat)
    requires h % 2 == 0 && 2 * r + 1 < h
    ensures Pixels(w, 2 * r + 1) == Pixels(w, 2 * r) + w
    ensures Pixels(w, 2 * r + 2) == Pixels(w, 2 * r) + 2 * w <= Pixels(w, h)
    ensures Pixels(w, r + 1) == Pixels(w, r) + w
    ensures Pixels(w, h) + Pixels(w, r + 1) <= FrameSize(w, h)
  {
    RowsIncrease(2 * r + 2, h, w);
    RowsIncrease(r + 1, h / 2, w);
    HalfRows(w, h / 2);
    assert Pixels(w, 2 * r + 2) == w + Pixels(w, 2 * r + 1);
  }

  /** The three bytes column j of that row pair contributes. */
  lemma PackedBytes(yuyv: seq<Byte>, w: nat, h: nat, r: nat, j: nat)
    requires h % 2 == 0 && 2 * r + 1 < h && j < w && |yuyv| == 2 * Pixels(w, h)
    ensures var a, c := Pixels(w, 2 * r) + j, Pixels(w, h) + Pixels(w, r) + j;
      && a + w < Pixels(w, h) <= c < FrameSize(w, h)
      && PackNv12(yuyv, w, h)[a] == yuyv[2 * a]
      && PackNv12(yuyv, w, h)[a + w] == yuyv[2 * (a + w)]
      && PackNv12(yuyv, w, h)[c] == yuyv[2 * a + 1]
  {
    RowPairPlaces(w, h, r);
    PosShift(0, r, w, j);
    PosShift(0, 2 * r, w, j);
    PosSplits(j, r, w);
    assert ChromaByte(yuyv, w, Pixels(w, r) + j) == At(yuyv, 2 * (Pixels(w, 2 * r) + j) + 1);
  }

  /** Which bytes of the target are written once row pairs 0 .. r-1 are done, and j columns of the
      next one. */
  predicate Packed(w: nat, h: nat, r: nat, j: nat, k: nat) {
    || k < Pixels(w, 2 * r) + j
    || Pixels(w, 2 * r) + w <= k < Pixels(w, 2 * r) + w + j
    || Pixels(w, h) <= k < Pixels(w, h) + Pixels(w, r) + j
  }

  ghost predicate PackedUpTo(nv12: seq<Byte>, yuyv: seq<Byte>, w: nat, h: nat, r: nat, j: nat) {
    && |nv12| == FrameSize(w, h)
    && forall k :: 0 <= k < |nv12| && Packed(w, h, r, j, k) ==> nv12[k] == PackNv12(yuyv, w, h)[k]
  }

  /** The three writes for one column extend what is packed. */
  lemma PackedGrows(before: seq<Byte>, after: seq<Byte>, yuyv: seq<Byte>, w: nat, h: nat, r: nat, j: nat)
    requires h % 2 == 0 && 2 * r + 1 < h && j < w && |yuyv| == 2 * Pixels(w, h)
    requires PackedUpTo(before, yuyv, w, h, r, j)
    requires var (a, c) := (Pixels(w, 2 * r) + j, Pixels(w, h) + Pixels(w, r) + j);
      && c < |before| && a + w < c && 2 * (a + w) < |yuyv|
      && after == before[a := yuyv[2 * a]][a + w := yuyv[2 * (a + w)]][c := yuyv[2 * a + 1]]
    ensures PackedUpTo(after, yuyv, w, h, r, j + 1)
  {
    PackedBytes(yuyv, w, h, r, j);
    forall k | 0 <= k < |after| && Packed(w, h, r, j + 1, k) ensures after[k] == PackNv12(yuyv, w, h)[k] {
      if Packed(w, h, r, j, k) {
        assert before[k] == PackNv12(yuyv, w, h)[k];
      }
    }
  }

  /** Column j of rows 2 * r and 2 * r + 1; `a` is the position of its first luma, `c` of its chroma. */
  method PackColumn(yuyv: array<Byte>, nv12: array<Byte>, a: nat, c: nat, w: nat, ghost h: nat, ghost r: nat, ghost j: nat)
    requires h % 2 == 0 && 2 * r + 1 < h && j < w && yuyv != nv12 && yuyv.Length == 2 * Pixels(w, h)
    requires a == Pixels(w, 2 * r) + j && c == Pixels(w, h) + Pixels(w, r) + j
    requires PackedUpTo(nv12[..], yuyv[..], w, h, r, j)
    modifies nv12
    ensures PackedUpTo(nv12[..], yuyv[..], w, h, r, j + 1)
  {
    PackedBytes(yuyv[..], w, h, r, j);
    ghost var before := nv12[..];
    nv12[a] := yuyv[2 * a];
    nv12[a + w] := yuyv[2 * (a + w)];
    nv12[c] := yuyv[2 * a + 1];
    PackedGrows(before, nv12[..], yuyv[..], w, h, r, j);
  }

  /** One pass of the outer loop of YUYVToNV12, over rows 2 * r and 2 * r + 1. */
  method PackRowPair(yuyv: array<Byte>, nv12: array<Byte>, w: nat, h: nat, r: nat)
    requires h % 2 == 0 && 2 * r + 1 < h && yuyv != nv12 && yuyv.Length == 2 * Pixels(w, h)
    requires PackedUpTo(nv12[..], yuyv[..], w, h, r, 0)
    modifies nv12
    ensures PackedUpTo(nv12[..], yuyv[..], w, h, r, w)
  {
    var a, c := Pixels(w, 2 * r), Pixels(w, h) + Pixels(w, r);
    var j := 0;
    while j < w
      invariant 0 <= j <= w && PackedUpTo(nv12[..], yuyv[..], w, h, r, j)
    {
      PackColumn(yuyv, nv12, a + j, c + j, w, h, r, j);
      j := j + 1;
    }
  }

  /** A finished row pair leaves nothing to do before the next one. */
  lemma PackedNext(w: nat, h: nat, r: nat)
    requires h % 2 == 0 && 2 * r + 1 < h
    ensures forall k :: Packed(w, h, r + 1, 0, k) ==> Packed(w, h, r, w, k)
  {
    RowPairPlaces(w, h, r);
  }

  /** YUYVToNV12 writes every byte of its target. */
  method YUYVToNV12(yuyv: array<Byte>, nv12: array<Byte>, w: nat, h: nat)
    requires EvenSized(w, h) && yuyv.Length == 2 * Pixels(w, h) && nv12.Length == FrameSize(w, h) && yuyv != nv12
    modifies nv12
    ensures nv12[..] == PackNv12(yuyv[..], w, h)
  {
    var i := 0;
    while i < h
      invariant 0 <= i <= h && i % 2 == 0 && PackedUpTo(nv12[..], yuyv[..], w, h, i / 2, 0)
    {
      PackRowPair(yuyv, nv12, w, h, i / 2);
      PackedNext(w, h, i / 2);
      i := i + 2;
    }
    HalfRows(w, h / 2);
    assert forall k :: 0 <= k < nv12.Length ==> Packed(w, h, h / 2, 0, k);
  }

  /** Even columns double: the chroma sample of block column i is a pair of bytes of the row. */
  lemma {:induction false} DoublePos(i: nat, r: nat, half: nat)
    ensures 2 * Pos(i, r, half) == Pos(2 * i, r, 2 * half)
  {
    if r == 0 {
    } else {
      DoublePos(i, r - 1, half);
    }
  }

  /** The chroma of column pair x / 2 in row 2 * (y / 2), and the pixel's own luma. */
  function YuyvPixel(yuyv: seq<Byte>, w: nat, x: nat, y: nat): Yuv {
    var pair := 2 * Pos(2 * (x / 2), 2 * (y / 2), w);
    Yuv(At(yuyv, 2 * Pos(x, y, w)), At(yuyv, pair + 1), At(yuyv, pair + 3))
  }

  lemma PackedChromaByte(yuyv: seq<Byte>, w: nat, h: nat, r: nat, j: nat)
    requires h % 2 == 0 && 2 * r + 1 < h && j < w && |yuyv| == 2 * Pixels(w, h)
    ensures Pixels(w, h) + Pos(j, r, w) < FrameSize(w, h)
    ensures PackNv12(yuyv, w, h)[Pixels(w, h) + Pos(j, r, w)] == At(yuyv, 2 * Pos(j, 2 * r, w) + 1)
  {
    RowPairPlaces(w, h, r);
    PosShift(0, r, w, j);
    PosSplits(j, r, w);
    assert Pixels(w, r) + j == Pos(j, r, w) < Pixels(w, r + 1);
    assert ChromaByte(yuyv, w, Pos(j, r, w)) == At(yuyv, 2 * Pos(j, 2 * r, w) + 1);
  }

  /** The two chroma bytes of block (i, r) come from column pair i of row 2 * r. */
  lemma PackedChroma(yuyv: seq<Byte>, half: nat, h: nat, i: nat, r: nat)
    requires h % 2 == 0 && 2 * r + 1 < h && i < half && |yuyv| == 2 * Pixels(2 * half, h)
    ensures var w := 2 * half; var k, pair := Pixels(w, h) + 2 * Pos(i, r, half), 2 * Pos(2 * i, 2 * r, w);
      && k + 1 < FrameSize(w, h)
      && PackNv12(yuyv, w, h)[k] == At(yuyv, pair + 1) && PackNv12(yuyv, w, h)[k + 1] == At(yuyv, pair + 3)
  {
    DoublePos(i, r, half);
    PosShift(2 * i, r, 2 * half, 1);
    PosShift(2 * i, 2 * r, 2 * half, 1);
    PackedChromaByte(yuyv, 2 * half, h, r, 2 * i);
    PackedChromaByte(yuyv, 2 * half, h, r, 2 * i + 1);
  }

  lemma PackedLuma(yuyv: seq<Byte>, w: nat, h: nat, x: nat, y: nat)
    requires x < w && y < h
    ensures Pos(x, y, w) < |PackNv12(yuyv, w, h)| && PackNv12(yuyv, w, h)[Pos(x, y, w)] == At(yuyv, 2 * Pos(x, y, w))
  {
    PosInside(x, y, w, h);
  }

  /** Rendering the converted frame gives at each pixel its own luma and the chroma of its column
      pair in the even row of its row pair. */
  lemma YuyvKeepsPixel(yuyv: seq<Byte>, w: nat, h: nat, x: nat, y: nat)
    requires EvenSized(w, h) && |yuyv| == 2 * Pixels(w, h) && x < w && y < h
    ensures YuvAt(PackNv12(yuyv, w, h), Nv12(w, h), w, x, y) == YuyvPixel(yuyv, w, x, y)
  {
    var half, i, r := w / 2, x / 2, y / 2;
    assert w == 2 * half && i < half && 2 * r + 1 < h;
    InterleavedPlaces(w, h, x, y);
    PackedLuma(yuyv, w, h, x, y);
    PackedChroma(yuyv, half, h, i, r);
    var k := Pixels(w, h) + 2 * ChromaIndex(x, y, w);
    YuvFrom(PackNv12(yuyv, w, h), Nv12(w, h), w, x, y, Pos(x, y, w), k, k + 1);
  }

  lemma YuyvKeepsImage<P>(yuyv: seq<Byte>, convert: Yuv -> P, w: nat, h: nat, x: nat, y: nat)
    requires EvenSized(w, h) && |yuyv| == 2 * Pixels(w, h) && x < w && y < h
    ensures Pos(x, y, w) < Pixels(w, h)
    ensures Render(PackNv12(yuyv, w, h), Nv12(w, h), convert, w, h)[Pos(x, y, w)] == convert(YuyvPixel(yuyv, w, x, y))
  {
    RenderAt(PackNv12(yuyv, w, h), Nv12(w, h), convert, w, h, x, y);
    YuyvKeepsPixel(yuyv, w, h, x, y);
  }

  // ---------------------------------------------------------------- encoding a whole image

  /** A w x h image is a function from columns and rows to colours. */
  type Image<!C> = (nat, nat) -> C

  /** The NV12 frame made by encoding each pixel, with the chroma of each block's first pixel. */
  function EncodeNv12<C>(image: Image<C>, encode: C -> Yuv, w: nat, h: nat): seq<Byte> {
    seq(FrameSize(w, h), k requires 0 <= k < FrameSize(w, h) => EncodedByte(image, encode, w, h, k))
  }

  function EncodedByte<C>(image: Image<C>, encode: C -> Yuv, w: nat, h: nat, k: nat): Byte {
    if k < Pixels(w, h) then encode(image(ColOf(k, w), RowOf(k, w))).y
    else EncodedChroma(image, encode, w / 2, k - Pixels(w, h))
  }

  function EncodedChroma<C>(image: Image<C>, encode: C -> Yuv, half: nat, k: nat): Byte {
    var yuv := encode(image(2 * ColOf(k / 2, half), 2 * RowOf(k / 2, half)));
    if k % 2 == 0 then yuv.u else yuv.v
  }

  /** Constant on 2 x 2 blocks. */
  ghost predicate BlockConstant<C>(image: Image<C>, w: nat, h: nat) {
    forall x: nat, y: nat :: x < w && y < h ==> image(x, y) == image(2 * (x / 2), 2 * (y / 2))
  }

  lemma EncodedBlock<C>(image: Image<C>, encode: C -> Yuv, half: nat, i: nat, r: nat)
    requires i < half
    ensures EncodedChroma(image, encode, half, 2 * Pos(i, r, half)) == encode(image(2 * i, 2 * r)).u
    ensures EncodedChroma(image, encode, half, 2 * Pos(i, r, half) + 1) == encode(image(2 * i, 2 * r)).v
  {
    PosSplits(i, r, half);
  }

  lemma EncodedLuma<C>(image: Image<C>, encode: C -> Yuv, w: nat, h: nat, x: nat, y: nat)
    requires x < w && y < h
    ensures Pos(x, y, w) < Pixels(w, h) && EncodeNv12(image, encode, w, h)[Pos(x, y, w)] == encode(image(x, y)).y
  {
    PosInside(x, y, w, h);
    PosSplits(x, y, w);
  }

  lemma EncodedChromaAt<C>(image: Image<C>, encode: C -> Yuv, w: nat, h: nat, x: nat, y: nat)
    requires EvenSized(w, h) && BlockConstant(image, w, h) && x < w && y < h
    ensures var k := Pixels(w, h) + 2 * ChromaIndex(x, y, w);
      && k + 1 < FrameSize(w, h)
      && EncodeNv12(image, encode, w, h)[k] == encode(image(x, y)).u
      && EncodeNv12(image, encode, w, h)[k + 1] == encode(image(x, y)).v
  {
    InterleavedPlaces(w, h, x, y);
    EncodedBlock(image, encode, w / 2, x / 2, y / 2);
    assert image(x, y) == image(2 * (x / 2), 2 * (y / 2));
  }

  /** What rendering finds at (x, y) of the encoded frame. */
  lemma EncodedYuv<C>(image: Image<C>, encode: C -> Yuv, w: nat, h: nat, x: nat, y: nat)
    requires EvenSized(w, h) && BlockConstant(image, w, h) && x < w && y < h
    ensures YuvAt(EncodeNv12(image, encode, w, h), Nv12(w, h), w, x, y) == encode(image(x, y))
  {
    InterleavedSamples(EncodeNv12(image, encode, w, h), w, h, x, y);
    EncodedLuma(image, encode, w, h, x, y);
    EncodedChromaAt(image, encode, w, h, x, y);
  }

  /** An image that is constant on 2 x 2 blocks survives encoding as NV12 and rendering, up to 2 on
      red, 2 on green and 3 on blue at every pixel. */
  lemma FrameRoundTrip(image: Image<Rgb>, w: nat, h: nat, x: nat, y: nat)
    requires EvenSized(w, h) && BlockConstant(image, w, h) && x < w && y < h
    ensures Pos(x, y, w) < Pixels(w, h)
    ensures Close(Render(EncodeNv12(image, R8G8B8ToYUV, w, h), Nv12(w, h), YUVToRGB32, w, h)[Pos(x, y, w)], image(x, y))
  {
    RenderAt(EncodeNv12(image, R8G8B8ToYUV, w, h), Nv12(w, h), YUVToRGB32, w, h, x, y);
    EncodedYuv(image, R8G8B8ToYUV, w, h, x, y);
    ColourRoundTrip(image(x, y));
  }

  // ---------------------------------------------------------------- packing an encoded image

  /** The YUYV frame of an image: the luma of each pixel, followed by the U of its column pair's first
      pixel in even columns and the V in odd ones. */
  function EncodeYuyv<C>(image: Image<C>, encode: C -> Yuv, w: nat, h: nat): seq<Byte> {
    seq(2 * Pixels(w, h), k requires 0 <= k < 2 * Pixels(w, h) => YuyvByte(image, encode, w, k))
  }

  function YuyvByte<C>(image: Image<C>, encode: C -> Yuv, w: nat, k: nat): Byte {
    var x, y := ColOf(k / 2, w), RowOf(k / 2, w);
    if k % 2 == 0 then encode(image(x, y)).y
    else
      var pair := encode(image(2 * (x / 2), y));
      if x % 2 == 0 then pair.u else pair.v
  }

  /** The row and column of a chroma byte, from those of its block. */
  lemma {:induction false} DoubleSplit(k: nat, half: nat)
    requires half > 0
    ensures RowOf(k, 2 * half) == RowOf(k / 2, half) && ColOf(k, 2 * half) == 2 * ColOf(k / 2, half) + k % 2
    decreases k
  {
    if k < 2 * half {
    } else {
      DoubleSplit(k - 2 * half, half);
      assert (k - 2 * half) / 2 == k / 2 - half;
    }
  }

  lemma PackedYuyvChroma<C>(image: Image<C>, encode: C -> Yuv, half: nat, h: nat, k: nat)
    requires half > 0 && h % 2 == 0 && k < Pixels(2 * half, h / 2)
    ensures ChromaByte(EncodeYuyv(image, encode, 2 * half, h), 2 * half, k) == EncodedChroma(image, encode, half, k)
  {
    var w := 2 * half;
    var x, r := ColOf(k, w), RowOf(k, w);
    SplitPos(k, w, h / 2);
    assert x < w && 2 * r < h;
    DoubleSplit(k, half);
    PosInside(x, 2 * r, w, h);
    PosSplits(x, 2 * r, w);
    var at := 2 * Pos(x, 2 * r, w) + 1;
    assert at < 2 * Pixels(w, h) && at / 2 == Pos(x, 2 * r, w) && at % 2 == 1;
    assert EncodeYuyv(image, encode, w, h)[at] == YuyvByte(image, encode, w, at);
  }

  lemma PackedYuyvByte<C>(image: Image<C>, encode: C -> Yuv, w: nat, h: nat, k: nat)
    requires EvenSized(w, h) && k < FrameSize(w, h)
    ensures PackNv12(EncodeYuyv(image, encode, w, h), w, h)[k] == EncodedByte(image, encode, w, h, k)
  {
    var yuyv := EncodeYuyv(image, encode, w, h);
    if k < Pixels(w, h) {
      assert yuyv[2 * k] == YuyvByte(image, encode, w, 2 * k);
    } else {
      HalfRows(w, h / 2);
      SplitPos(k - Pixels(w, h), w, h / 2);
      assert w == 2 * (w / 2) && w / 2 > 0;
      PackedYuyvChroma(image, encode, w / 2, h, k - Pixels(w, h));
    }
  }

  /** Packing the YUYV frame of an image gives the NV12 frame of that image: the two encoders agree. */
  lemma PackingCommutes<C>(image: Image<C>, encode: C -> Yuv, w: nat, h: nat)
    requires EvenSized(w, h)
    ensures PackNv12(EncodeYuyv(image, encode, w, h), w, h) == EncodeNv12(image, encode, w, h)
  {
    forall k | 0 <= k < FrameSize(w, h)
      ensures PackNv12(EncodeYuyv(image, encode, w, h), w, h)[k] == EncodedByte(image, encode, w, h, k)
    {
      PackedYuyvByte(image, encode, w, h, k);
    }
  }
}
