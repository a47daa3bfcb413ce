/** The colour-space converter of TfStage: a centred crop of a planar YUV420
    low-resolution frame converted to packed 8-bit R,G,B, one triple per pixel
    of the inference input (TfStage::yuvToRgb). */
module Yuv {
  import opened Arith

  /** An unsigned 8-bit sample (uint8_t). */
  type Byte = b: int | 0 <= b < 256

  /** `(n / 2) & ~1` for a non-negative n: half of n, rounded down to an even
      number, so a crop starting there is centred and chroma-aligned. */
  function EvenHalf(n: int): (r: int)
    requires 0 <= n
    ensures 0 <= r && r % 2 == 0
    ensures 2 * r <= n < 2 * r + 4
  {
    (n / 2) - (n / 2) % 2
  }

  /** What yuvToRgb reads from the stage: the inference input size (tf_w_,
      tf_h_) and the low-resolution stream's width, height and row stride. */
  datatype Geometry = Geometry(tfW: int, tfH: int, loresW: int, loresH: int, loresStride: int)
  {
    /** The input fits inside the stream (the guard of Configure), and the
        stream is a YUV420 image with even height and stride and a stride no
        smaller than its width. */
    predicate Valid()
    {
      0 < tfW <= loresW <= loresStride && 0 < tfH <= loresH
      && loresH % 2 == 0 && loresStride % 2 == 0
    }

    function OffX(): int
      requires Valid()
    {
      EvenHalf(loresW - tfW)
    }

    function OffY(): int
      requires Valid()
    {
      EvenHalf(loresH - tfH)
    }

    /** Bytes of the luma plane, which comes first in the buffer. */
    function LumaSize(): int
    {
      Mul(loresH, loresStride)
    }

    /** Row stride of each chroma plane. */
    function ChromaStride(): int
    {
      loresStride / 2
    }

    /** Bytes of one chroma plane; the V plane follows the U plane. */
    function ChromaSize(): int
    {
      Mul(loresH / 2, ChromaStride())
    }

    function BufferSize(): int
    {
      LumaSize() + 2 * ChromaSize()
    }

    function PixelCount(): int
    {
      Mul(tfH, tfW)
    }

    /** Row-major number of output pixel (x, y). */
    function PixelIndex(x: int, y: int): int
    {
      Mul(y, tfW) + x
    }

    /** Where the luma pointer starts for output row y: row y + off_y of
        the luma plane, column off_x. */
    function LumaRowStart(y: int): int
      requires Valid()
    {
      Mul(y + OffY(), loresStride) + OffX()
    }

    /** Where the U pointer starts for output row y: row (y + off_y) / 2 of
        the U plane, which follows the luma plane, column off_x / 2. */
    function URowStart(y: int): int
      requires Valid()
    {
      LumaSize() + Mul((y + OffY()) / 2, ChromaStride()) + OffX() / 2
    }

    /** The V pointer starts at the same place in the V plane, which
        follows the U plane. */
    function VRowStart(y: int): int
      requires Valid()
    {
      URowStart(y) + ChromaSize()
    }

    /** Where the luma pointer stands when output pixel (x, y) is converted. */
    function LumaIndex(x: int, y: int): int
      requires Valid()
    {
      LumaRowStart(y) + x
    }

    /** Where the U pointer stands when output pixel (x, y) is converted: the
        row start plus one step after every odd x before this one. */
    function ChromaUIndex(x: int, y: int): int
      requires Valid()
    {
      URowStart(y) + x / 2
    }

    function ChromaVIndex(x: int, y: int): int
      requires Valid()
    {
      VRowStart(y) + x / 2
    }
  }

  /** Conversion of a value given in thousandths to int, truncating toward
      zero as the C++ conversion of a double to int does. */
  function TruncThousandths(n: int): (r: int)
    ensures 0 <= n ==> 0 <= 1000 * r <= n < 1000 * r + 1000
    ensures n < 0 ==> 1000 * r - 1000 < n <= 1000 * r <= 0
  {
    if 0 <= n then n / 1000 else -((-n) / 1000)
  }

  /** std::clamp<int>(v, 0, 255). */
  function Clamp(v: int): Byte
  {
    if v < 0 then 0 else if v > 255 then 255 else v
  }

  /** R = Y + 1.402 (V - 128), truncated and clamped. */
  function Red(y: Byte, v: Byte): Byte
  {
    Clamp(TruncThousandths(1000 * y + 1402 * (v - 128)))
  }

  /** G = Y - 0.345 (U - 128) - 0.714 (V - 128), truncated and clamped. */
  function Green(y: Byte, u: Byte, v: Byte): Byte
  {
    Clamp(TruncThousandths(1000 * y - 345 * (u - 128) - 714 * (v - 128)))
  }

  /** B = Y + 1.771 (U - 128), truncated and clamped. */
  function Blue(y: Byte, u: Byte): Byte
  {
    Clamp(TruncThousandths(1000 * y + 1771 * (u - 128)))
  }

  datatype Rgb = Rgb(r: Byte, g: Byte, b: Byte)

  /** The colour of one luma sample with its chroma pair. */
  function ToRgb(luma: Byte, u: Byte, v: Byte): Rgb
  {
    Rgb(Red(luma, v), Green(luma, u, v), Blue(luma, u))
  }

  /** The crop starts at even offsets and fits inside the stream. */
  lemma CropFits(g: Geometry)
    requires g.Valid()
    ensures 0 <= g.OffX() && g.OffX() % 2 == 0 && g.OffX() + g.tfW <= g.loresW
    ensures 0 <= g.OffY() && g.OffY() % 2 == 0 && g.OffY() + g.tfH <= g.loresH
  {
  }

  lemma LumaInBounds(g: Geometry, x: int, y: int)
    requires g.Valid() && 0 <= x < g.tfW && 0 <= y < g.tfH
    ensures g.LumaIndex(x, y) == Mul(y + g.OffY(), g.loresStride) + (x + g.OffX())
    ensures 0 <= g.LumaIndex(x, y) < g.LumaSize() <= g.BufferSize()
  {
    CropFits(g);
    BufferIsOneAndAHalfPlanes(g);
    RowMajorBound(y + g.OffY(), x + g.OffX(), g.loresStride, g.loresH);
  }

  lemma ChromaInBounds(g: Geometry, x: int, y: int)
    requires g.Valid() && 0 <= x < g.tfW && 0 <= y < g.tfH
    ensures g.ChromaUIndex(x, y)
            == g.LumaSize() + Mul((y + g.OffY()) / 2, g.ChromaStride()) + (x + g.OffX()) / 2
    ensures (x + g.OffX()) / 2 < g.ChromaStride()
    ensures g.LumaSize() <= g.ChromaUIndex(x, y) < g.LumaSize() + g.ChromaSize()
  {
    CropFits(g);
    var row, col := (y + g.OffY()) / 2, (x + g.OffX()) / 2;
    RowMajorBound(row, col, g.ChromaStride(), g.loresH / 2);
  }

  lemma BufferIsOneAndAHalfPlanes(g: Geometry)
    requires g.Valid()
    ensures 0 <= g.ChromaSize() && 2 * g.BufferSize() == 3 * g.LumaSize()
  {
    var a, b := g.loresH / 2, g.loresStride / 2;
    MulIsProduct(a, b);
    MulIsProduct(g.loresH, g.loresStride);
    assert g.loresH * g.loresStride == (2 * a) * (2 * b) == 4 * (a * b);
  }

  /** Every sample the converter reads for output pixel (x, y) lies in its
      plane: the luma sample at row y + off_y and column x + off_x of the luma
      plane, the chroma samples at half those coordinates in the U and V
      planes; and the buffer holds exactly one and a half luma planes. */
  lemma SampleLocations(g: Geometry, x: int, y: int)
    requires g.Valid() && 0 <= x < g.tfW && 0 <= y < g.tfH
    ensures g.OffX() + g.tfW <= g.loresW && g.OffY() + g.tfH <= g.loresH
    ensures g.LumaIndex(x, y) == Mul(y + g.OffY(), g.loresStride) + (x + g.OffX())
    ensures 0 <= g.LumaIndex(x, y) < g.LumaSize()
    ensures g.ChromaUIndex(x, y)
            == g.LumaSize() + Mul((y + g.OffY()) / 2, g.ChromaStride()) + (x + g.OffX()) / 2
    ensures g.LumaSize() <= g.ChromaUIndex(x, y) < g.LumaSize() + g.ChromaSize()
    ensures g.LumaSize() + g.ChromaSize() <= g.ChromaVIndex(x, y) < g.BufferSize()
    ensures 2 * g.BufferSize() == 3 * g.LumaSize()
  {
    CropFits(g);
    LumaInBounds(g, x, y);
    ChromaInBounds(g, x, y);
    BufferIsOneAndAHalfPlanes(g);
  }

  /** Two output pixels read the same chroma pair exactly when they lie in
      the same 2x2 block of the output. */
  lemma {:induction false} ChromaSharedByBlock(g: Geometry, x1: int, y1: int, x2: int, y2: int)
    requires g.Valid()
    requires 0 <= x1 < g.tfW && 0 <= y1 < g.tfH && 0 <= x2 < g.tfW && 0 <= y2 < g.tfH
    ensures g.ChromaUIndex(x1, y1) == g.ChromaUIndex(x2, y2) <==> x1 / 2 == x2 / 2 && y1 / 2 == y2 / 2
    ensures g.ChromaVIndex(x1, y1) == g.ChromaVIndex(x2, y2) <==> x1 / 2 == x2 / 2 && y1 / 2 == y2 / 2
  {
    CropFits(g);
    ChromaInBounds(g, x1, y1);
    ChromaInBounds(g, x2, y2);
    var r1, r2 := (y1 + g.OffY()) / 2, (y2 + g.OffY()) / 2;
    var c1, c2 := (x1 + g.OffX()) / 2, (x2 + g.OffX()) / 2;
    assert r1 == g.OffY() / 2 + y1 / 2 && r2 == g.OffY() / 2 + y2 / 2;
    assert c1 == g.OffX() / 2 + x1 / 2 && c2 == g.OffX() / 2 + x2 / 2;
    if g.ChromaUIndex(x1, y1) == g.ChromaUIndex(x2, y2) {
      RowMajorUnique(r1, c1, r2, c2, g.ChromaStride());
    }
  }

  /** The luma sample of output pixel (x, y). */
  function LumaAt(g: Geometry, src: seq<Byte>, x: int, y: int): Byte
    requires g.Valid() && |src| >= g.BufferSize()
    requires 0 <= x < g.tfW && 0 <= y < g.tfH
  {
    LumaInBounds(g, x, y);
    src[g.LumaIndex(x, y)]
  }

  /** The converted pixel at (x, y): its luma sample and the chroma pair its
      2x2 block shares. */
  function PixelAt(g: Geometry, src: seq<Byte>, x: int, y: int): Rgb
    requires g.Valid() && |src| >= g.BufferSize()
    requires 0 <= x < g.tfW && 0 <= y < g.tfH
  {
    SampleLocations(g, x, y);
    var luma := LumaAt(g, src, x, y);
    var u := src[g.ChromaUIndex(x, y)];
    var v := src[g.ChromaVIndex(x, y)];
    ToRgb(luma, u, v)
  }

  /** Channel c of a pixel, in the order R, G, B. */
  function Channel(px: Rgb, c: int): Byte
  {
    if c == 0 then px.r else if c == 1 then px.g else px.b
  }

  /** The first n pixels of output row y. */
  function ImageRow(g: Geometry, src: seq<Byte>, y: int, n: int): (row: seq<Rgb>)
    requires g.Valid() && |src| >= g.BufferSize()
    requires 0 <= y < g.tfH && 0 <= n <= g.tfW
    ensures |row| == n
  {
    if n == 0 then [] else ImageRow(g, src, y, n - 1) + [PixelAt(g, src, n - 1, y)]
  }

  /** The first m output rows, each of tf_w pixels. */
  function ImageRows(g: Geometry, src: seq<Byte>, m: int): (img: seq<seq<Rgb>>)
    requires g.Valid() && |src| >= g.BufferSize()
    requires 0 <= m <= g.tfH
    ensures |img| == m
    ensures forall y :: 0 <= y < m ==> |img[y]| == g.tfW
  {
    if m == 0 then [] else ImageRows(g, src, m - 1) + [ImageRow(g, src, m - 1, g.tfW)]
  }

  /** The cropped image as rows of pixels: row y holds pixels (0, y) to
      (tf_w - 1, y). */
  function Image(g: Geometry, src: seq<Byte>): (img: seq<seq<Rgb>>)
    requires g.Valid() && |src| >= g.BufferSize()
    ensures |img| == g.tfH
    ensures forall y :: 0 <= y < g.tfH ==> |img[y]| == g.tfW
  {
    ImageRows(g, src, g.tfH)
  }

  lemma {:induction false} ImageRowAt(g: Geometry, src: seq<Byte>, y: int, n: int, x: int)
    requires g.Valid() && |src| >= g.BufferSize()
    requires 0 <= y < g.tfH && 0 <= x < n <= g.tfW
    ensures ImageRow(g, src, y, n)[x] == PixelAt(g, src, x, y)
  {
    if x < n - 1 {
      ImageRowAt(g, src, y, n - 1, x);
    }
  }

  lemma {:induction false} ImageRowsAt(g: Geometry, src: seq<Byte>, m: int, y: int)
    requires g.Valid() && |src| >= g.BufferSize()
    requires 0 <= y < m <= g.tfH
    ensures ImageRows(g, src, m)[y] == ImageRow(g, src, y, g.tfW)
  {
    if y < m - 1 {
      ImageRowsAt(g, src, m - 1, y);
    }
  }

  /** Pixel x of row y of the image is the converted pixel (x, y). */
  lemma ImageAt(g: Geometry, src: seq<Byte>, x: int, y: int)
    requires g.Valid() && |src| >= g.BufferSize()
    requires 0 <= x < g.tfW && 0 <= y < g.tfH
    ensures Image(g, src)[y][x] == PixelAt(g, src, x, y)
  {
    ImageRowsAt(g, src, g.tfH, y);
    ImageRowAt(g, src, y, g.tfW, x);
  }

  /** A row of pixels stored as consecutive R, G, B bytes. */
  function Packed(row: seq<Rgb>): (bytes: seq<Byte>)
    ensures |bytes| == 3 * |row|
  {
    if row == [] then []
    else
      var px := row[|row| - 1];
      Packed(row[..|row| - 1]) + [px.r, px.g, px.b]
  }

  /** Rows of pixels stored one packed row after another. */
  function Flatten(img: seq<seq<Rgb>>): (bytes: seq<Byte>)
  {
    if img == [] then [] else Flatten(img[..|img| - 1]) + Packed(img[|img| - 1])
  }

  /** The whole converted image, as yuvToRgb returns it: tf_h * tf_w packed
      R, G, B triples. */
  function Converted(g: Geometry, src: seq<Byte>): (rgb: seq<Byte>)
    requires g.Valid() && |src| >= g.BufferSize()
    ensures |rgb| == 3 * g.PixelCount() == g.tfH * g.tfW * 3
  {
    var img := Image(g, src);
    FlattenLength(img, g.tfW);
    MulIsProduct(g.tfH, g.tfW);
    Flatten(img)
  }

  /** Pixel x of a packed row sits at bytes 3 x .. 3 x + 2 of it. */
  lemma {:induction false} PackedAt(row: seq<Rgb>, x: int, c: int)
    requires 0 <= x < |row| && 0 <= c < 3
    ensures Packed(row)[3 * x + c] == Channel(row[x], c)
  {
    var init := row[..|row| - 1];
    if x < |row| - 1 {
      PackedAt(init, x, c);
      assert init[x] == row[x];
    }
  }

  /** Flattening one more row of an image appends that row, packed. */
  lemma FlattenPrefix(img: seq<seq<Rgb>>, y: int)
    requires 0 <= y < |img|
    ensures Flatten(img[..y + 1]) == Flatten(img[..y]) + Packed(img[y])
  {
    assert img[..y + 1][..y] == img[..y];
  }

  /** An image of rows of w pixels flattens to 3 w bytes per row. */
  lemma {:induction false} FlattenLength(img: seq<seq<Rgb>>, w: int)
    requires 0 <= w && forall y :: 0 <= y < |img| ==> |img[y]| == w
    ensures |Flatten(img)| == 3 * Mul(|img|, w)
  {
    if img != [] {
      var init := img[..|img| - 1];
      FlattenLength(init, w);
      assert Flatten(img) == Flatten(init) + Packed(img[|img| - 1]);
      assert Mul(|img|, w) == Mul(|init|, w) + w;
    }
  }

  /** Pixel (x, y) of an image of rows of w pixels sits at bytes
      3 (y w + x) .. 3 (y w + x) + 2 of the flattened image. */
  lemma {:induction false} FlattenAt(img: seq<seq<Rgb>>, w: int, x: int, y: int, c: int)
    requires forall y :: 0 <= y < |img| ==> |img[y]| == w
    requires 0 <= y < |img| && 0 <= x < w && 0 <= c < 3
    ensures 0 <= 3 * (Mul(y, w) + x) + c < |Flatten(img)|
    ensures Flatten(img)[3 * (Mul(y, w) + x) + c] == Channel(img[y][x], c)
  {
    var init := img[..|img| - 1];
    var last := img[|img| - 1];
    FlattenLength(init, w);
    RowMajorBound(y, x, w, |img|);
    assert Flatten(img) == Flatten(init) + Packed(last);
    if y == |img| - 1 {
      PackedAt(last, x, c);
      assert Flatten(img)[|Flatten(init)| + (3 * x + c)] == Packed(last)[3 * x + c];
    } else {
      FlattenAt(init, w, x, y, c);
      assert init[y] == img[y];
    }
  }

  /** Pixel (x, y) occupies bytes 3 (y tf_w + x) to 3 (y tf_w + x) + 2 of the
      output, in the order R, G, B. */
  lemma PixelLayout(g: Geometry, src: seq<Byte>, x: int, y: int)
    requires g.Valid() && |src| >= g.BufferSize()
    requires 0 <= x < g.tfW && 0 <= y < g.tfH
    ensures 0 <= g.PixelIndex(x, y) < g.PixelCount()
    ensures 3 * g.PixelIndex(x, y) + 2 < |Converted(g, src)|
    ensures Converted(g, src)[3 * g.PixelIndex(x, y)] == PixelAt(g, src, x, y).r
    ensures Converted(g, src)[3 * g.PixelIndex(x, y) + 1] == PixelAt(g, src, x, y).g
    ensures Converted(g, src)[3 * g.PixelIndex(x, y) + 2] == PixelAt(g, src, x, y).b
  {
    var img := Image(g, src);
    RowMajorBound(y, x, g.tfW, g.tfH);
    FlattenAt(img, g.tfW, x, y, 0);
    FlattenAt(img, g.tfW, x, y, 1);
    FlattenAt(img, g.tfW, x, y, 2);
    ImageAt(g, src, x, y);
  }

  /** With neutral chroma (U = V = 128) all three channels equal the luma:
      mid-grey stays 128, white 255 and black 0. */
  lemma NeutralChromaIsGrey(luma: Byte)
    ensures Red(luma, 128) == luma && Green(luma, 128, 128) == luma && Blue(luma, 128) == luma
  {
  }

  /** Truncation toward zero never reverses an order. */
  lemma TruncMonotone(a: int, b: int)
    requires a <= b
    ensures TruncThousandths(a) <= TruncThousandths(b)
  {
  }

  /** For a fixed chroma pair, a brighter luma sample never gives a darker
      channel. */
  lemma BrighterLumaBrighterPixel(luma1: Byte, luma2: Byte, u: Byte, v: Byte)
    requires luma1 <= luma2
    ensures ToRgb(luma1, u, v).r <= ToRgb(luma2, u, v).r
    ensures ToRgb(luma1, u, v).g <= ToRgb(luma2, u, v).g
    ensures ToRgb(luma1, u, v).b <= ToRgb(luma2, u, v).b
  {
    assert Red(luma1, v) <= Red(luma2, v) by {
      TruncMonotone(1000 * luma1 + 1402 * (v - 128), 1000 * luma2 + 1402 * (v - 128));
    }
    assert Green(luma1, u, v) <= Green(luma2, u, v) by {
      TruncMonotone(1000 * luma1 - 345 * (u - 128) - 714 * (v - 128),
                    1000 * luma2 - 345 * (u - 128) - 714 * (v - 128));
    }
    assert Blue(luma1, u) <= Blue(luma2, u) by {
      TruncMonotone(1000 * luma1 + 1771 * (u - 128), 1000 * luma2 + 1771 * (u - 128));
    }
  }

  /** When both chroma planes are neutral, every output pixel is grey at the
      level of the luma sample it reads. */
  lemma NeutralPixelIsGrey(g: Geometry, src: seq<Byte>, x: int, y: int)
    requires g.Valid() && |src| >= g.BufferSize()
    requires 0 <= x < g.tfW && 0 <= y < g.tfH
    requires forall i :: 0 <= g.LumaSize() <= i < g.BufferSize() ==> src[i] == 128
    ensures var i := 3 * g.PixelIndex(x, y);
            0 <= i && i + 2 < |Converted(g, src)|
            && Converted(g, src)[i] == LumaAt(g, src, x, y)
            && Converted(g, src)[i + 1] == LumaAt(g, src, x, y)
            && Converted(g, src)[i + 2] == LumaAt(g, src, x, y)
  {
    PixelLayout(g, src, x, y);
    SampleLocations(g, x, y);
    var luma := LumaAt(g, src, x, y);
    NeutralChromaIsGrey(luma);
    assert PixelAt(g, src, x, y) == Rgb(luma, luma, luma);
  }

  /** The bytes the inner loop of yuvToRgb writes for n pixels of one row,
      given the row's first luma position and first U and V positions: pixel
      x takes the luma sample x bytes on and the chroma pair x / 2 bytes on. */
  function RowBytes(src: seq<Byte>, lumaStart: int, uStart: int, vStart: int, n: int): (bytes: seq<Byte>)
    requires 0 <= n && 0 <= lumaStart && lumaStart + n <= |src|
    requires 0 <= uStart && uStart + (n + 1) / 2 <= |src|
    requires 0 <= vStart && vStart + (n + 1) / 2 <= |src|
    ensures |bytes| == 3 * n
  {
    if n == 0 then []
    else
      var x := n - 1;
      var px := ToRgb(src[lumaStart + x], src[uStart + x / 2], src[vStart + x / 2]);
      RowBytes(src, lumaStart, uStart, vStart, x) + [px.r, px.g, px.b]
  }

  /** Pixel x of output row y is read x bytes after the row's first luma
      sample and x / 2 bytes after its first chroma pair. */
  lemma PixelReads(g: Geometry, src: seq<Byte>, x: int, y: int)
    requires g.Valid() && |src| >= g.BufferSize() && 0 <= x < g.tfW && 0 <= y < g.tfH
    ensures 0 <= g.LumaRowStart(y) && g.LumaRowStart(y) + x < |src|
    ensures 0 <= g.URowStart(y) && g.URowStart(y) + x / 2 < |src|
    ensures 0 <= g.VRowStart(y) && g.VRowStart(y) + x / 2 < |src|
    ensures PixelAt(g, src, x, y)
            == ToRgb(src[g.LumaRowStart(y) + x], src[g.URowStart(y) + x / 2], src[g.VRowStart(y) + x / 2])
  {
    SampleLocations(g, 0, y);
    SampleLocations(g, x, y);
  }

  /** Converting pixels from read positions that yield exactly the pixels
      of `row` gives `row`, packed. */
  lemma {:induction false} RowBytesPacked(src: seq<Byte>, lumaStart: int, uStart: int, vStart: int,
                                          row: seq<Rgb>)
    requires 0 <= lumaStart && lumaStart + |row| <= |src|
    requires 0 <= uStart && uStart + (|row| + 1) / 2 <= |src|
    requires 0 <= vStart && vStart + (|row| + 1) / 2 <= |src|
    requires forall x :: 0 <= x < |row| ==>
               row[x] == ToRgb(src[lumaStart + x], src[uStart + x / 2], src[vStart + x / 2])
    ensures RowBytes(src, lumaStart, uStart, vStart, |row|) == Packed(row)
  {
    if row != [] {
      var n := |row| - 1;
      var init := row[..n];
      RowBytesPacked(src, lumaStart, uStart, vStart, init);
      assert Packed(row) == Packed(init) + [row[n].r, row[n].g, row[n].b];
    }
  }

  /** Converting output row y from the read positions of its first pixel
      gives the row of the image, packed. */
  lemma RowReads(g: Geometry, src: seq<Byte>, y: int)
    requires g.Valid() && |src| >= g.BufferSize() && 0 <= y < g.tfH
    ensures 0 <= g.LumaRowStart(y) && g.LumaRowStart(y) + g.tfW <= |src|
    ensures 0 <= g.URowStart(y) && g.URowStart(y) + (g.tfW + 1) / 2 <= |src|
    ensures 0 <= g.VRowStart(y) && g.VRowStart(y) + (g.tfW + 1) / 2 <= |src|
    ensures RowBytes(src, g.LumaRowStart(y), g.URowStart(y), g.VRowStart(y), g.tfW)
            == Packed(Image(g, src)[y])
  {
    var row := Image(g, src)[y];
    var lumaStart, uStart, vStart := g.LumaRowStart(y), g.URowStart(y), g.VRowStart(y);
    assert |row| == g.tfW && 0 <= lumaStart && lumaStart + |row| <= |src|
      && 0 <= uStart && uStart + (|row| + 1) / 2 <= |src|
      && 0 <= vStart && vStart + (|row| + 1) / 2 <= |src| by {
      PixelReads(g, src, g.tfW - 1, y);
    }
    assert forall x :: 0 <= x < |row| ==>
             row[x] == ToRgb(src[lumaStart + x], src[uStart + x / 2], src[vStart + x / 2]) by {
      forall x | 0 <= x < |row|
        ensures row[x] == ToRgb(src[lumaStart + x], src[uStart + x / 2], src[vStart + x / 2])
      {
        PixelReads(g, src, x, y);
        ImageRowsAt(g, src, g.tfH, y);
        ImageRowAt(g, src, y, g.tfW, x);
      }
    }
    RowBytesPacked(src, lumaStart, uStart, vStart, row);
  }

  /** The read positions yuvToRgb computes for the first pixel of row y from
      the crop offsets lie in the buffer, and converting tf_w pixels from
      them gives row y of the image. */
  lemma RowStartReads(g: Geometry, src: seq<Byte>, y: int, offX: int, offY: int,
                      srcY: int, srcU: int, srcV: int)
    requires g.Valid() && |src| >= g.BufferSize() && 0 <= y < g.tfH
    requires offX == EvenHalf(g.loresW - g.tfW) && offY == EvenHalf(g.loresH - g.tfH)
    requires srcY == Mul(y + offY, g.loresStride) + offX
    requires srcU == Mul(g.loresH, g.loresStride) + Mul((y + offY) / 2, g.loresStride / 2) + offX / 2
    requires srcV == srcU + Mul(g.loresH / 2, g.loresStride / 2)
    ensures 0 <= srcY && srcY + g.tfW <= |src|
    ensures 0 <= srcU && srcU + (g.tfW + 1) / 2 <= |src|
    ensures 0 <= srcV && srcV + (g.tfW + 1) / 2 <= |src|
    ensures RowBytes(src, srcY, srcU, srcV, g.tfW) == Packed(Image(g, src)[y])
  {
    assert g.OffX() == offX && g.OffY() == offY;
    assert srcY == g.LumaRowStart(y) && srcU == g.URowStart(y) && srcV == g.VRowStart(y);
    RowReads(g, src, y);
  }

  /** The inner loop of yuvToRgb: converts width pixels, advancing the luma
      read position after every pixel and the chroma positions after every
      odd x, and returns the R, G, B bytes it stores, in order. */
  method ConvertRow(src: seq<Byte>, width: int, srcY: int, srcU: int, srcV: int)
    returns (bytes: seq<Byte>)
    requires 0 <= width && 0 <= srcY && srcY + width <= |src|
    requires 0 <= srcU && srcU + (width + 1) / 2 <= |src|
    requires 0 <= srcV && srcV + (width + 1) / 2 <= |src|
    ensures bytes == RowBytes(src, srcY, srcU, srcV, width)
  {
    bytes := [];
    var lumaPos, uPos, vPos := srcY, srcU, srcV;
    var x := 0;
    while x < width
      invariant 0 <= x <= width
      invariant lumaPos == srcY + x && uPos == srcU + x / 2 && vPos == srcV + x / 2
      invariant bytes == RowBytes(src, srcY, srcU, srcV, x)
    {
      var luma := src[lumaPos];
      lumaPos := lumaPos + 1;
      var u, v := src[uPos], src[vPos];
      uPos, vPos := uPos + x % 2, vPos + x % 2;
      var px := ToRgb(luma, u, v);
      bytes := bytes + [px.r, px.g, px.b];
      x := x + 1;
    }
  }

  /** yuvToRgb: for each output row, computes the luma read position and the
      U and V read positions of its first pixel and converts the row; the
      output holds tf_h * tf_w * 3 bytes, row after row. */
  method YuvToRgb(g: Geometry, src: seq<Byte>) returns (rgb: seq<Byte>)
    requires g.Valid() && |src| >= g.BufferSize()
    ensures rgb == Converted(g, src)
  {
    ghost var img := Image(g, src);
    var output := [];
    var offX, offY := EvenHalf(g.loresW - g.tfW), EvenHalf(g.loresH - g.tfH);
    var srcSize, srcUSize := g.loresH * g.loresStride, (g.loresH / 2) * (g.loresStride / 2);
    var y := 0;
    while y < g.tfH
      invariant 0 <= y <= g.tfH
      invariant output == Flatten(img[..y])
    {
      var srcY := (y + offY) * g.loresStride + offX;
      var srcU := srcSize + ((y + offY) / 2) * (g.loresStride / 2) + offX / 2;
      var srcV := srcU + srcUSize;
      assert srcY == Mul(y + offY, g.loresStride) + offX
        && srcU == Mul(g.loresH, g.loresStride) + Mul((y + offY) / 2, g.loresStride / 2) + offX / 2
        && srcV == srcU + Mul(g.loresH / 2, g.loresStride / 2) by {
        MulIsProduct(y + offY, g.loresStride);
        MulIsProduct((y + offY) / 2, g.loresStride / 2);
        MulIsProduct(g.loresH, g.loresStride);
        MulIsProduct(g.loresH / 2, g.loresStride / 2);
      }
      assert 0 <= srcY && srcY + g.tfW <= |src|
        && 0 <= srcU && srcU + (g.tfW + 1) / 2 <= |src|
        && 0 <= srcV && srcV + (g.tfW + 1) / 2 <= |src|
        && RowBytes(src, srcY, srcU, srcV, g.tfW) == Packed(img[y]) by {
        RowStartReads(g, src, y, offX, offY, srcY, srcU, srcV);
      }
      var row := ConvertRow(src, g.tfW, srcY, srcU, srcV);
      FlattenPrefix(img, y);
      output := output + row;
      y := y + 1;
    }
    assert img[..y] == img;
    rgb := output;
  }
}
