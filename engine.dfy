/** The block-average dither engine: `quantize`, the copying tone curve,
    the BW and RGB block dithers, and the settings merge. Images are RGBA
    byte buffers, four bytes per pixel, row by row; the input buffer is
    only read and every pass returns a fresh one. */
module Engine {
  import opened Bytes

  // ---------------------------------------------------------------------
  // quantize
  // ---------------------------------------------------------------------

  /** The distance between two adjacent levels, `255 / (steps - 1)`. */
  function Step(steps: int): (s: real)
    requires steps >= 2
    ensures 0.0 < s <= 255.0
    ensures s * (steps - 1) as real == 255.0
  {
    255.0 / (steps - 1) as real
  }

  /** `quantize(value, steps)`: 0 for at most one step, otherwise value
      rounded to the nearest multiple of the level distance. */
  function Quantize(value: real, steps: int): real
  {
    if steps <= 1 then 0.0
    else Round(value / Step(steps)) as real * Step(steps)
  }

  lemma RealMulMonotone(a: real, b: real, s: real)
    requires a <= b && s >= 0.0
    ensures a * s <= b * s
  {
    assert b * s - a * s == (b - a) * s;
  }

  /** For a byte-ranged value the result is level k of `steps`, it lies in
      [0,255], and it is within half a level of the value. */
  lemma {:induction false} QuantizeLevel(value: real, steps: int)
    requires steps >= 2 && 0.0 <= value <= 255.0
    ensures 0 <= Round(value / Step(steps)) <= steps - 1
    ensures Quantize(value, steps) == Round(value / Step(steps)) as real * Step(steps)
    ensures 0.0 <= Quantize(value, steps) <= 255.0
    ensures Quantize(value, steps) - Step(steps) / 2.0 <= value < Quantize(value, steps) + Step(steps) / 2.0
  {
    var s := Step(steps);
    var levels := (steps - 1) as real;
    var x := value / s;
    assert s * levels == 255.0;
    assert x == value * levels / 255.0;
    assert 0.0 <= x <= levels by {
      RealMulMonotone(value, 255.0, levels);
    }
    var k := Round(x);
    RoundMonotone(0.0, x);
    RoundMonotone(x, levels);
    assert Round(levels) == steps - 1;
    RealMulMonotone(k as real, levels, s);
    RealMulMonotone(0.0, k as real, s);
    assert x * s == value;
    RealMulMonotone(k as real - 0.5, x, s);
    RealMulMonotone(x, k as real + 0.5, s);
    assert (k as real - 0.5) * s == k as real * s - s / 2.0;
    assert (k as real + 0.5) * s == k as real * s + s / 2.0;
    assert x != k as real + 0.5;
    assert x * s != (k as real + 0.5) * s;
  }

  /** With at most one step every value quantises to 0. */
  lemma QuantizeDegenerate(value: real, steps: int)
    requires steps <= 1
    ensures Quantize(value, steps) == 0.0
  {
  }

  // ---------------------------------------------------------------------
  // Brightness and contrast (copying)
  // ---------------------------------------------------------------------

  /** The engine's tone curve before the store: contrast about 128 with the
      squared factor `((contrast + 100) / 100)^2`, then `2.55 brightness`.
      At contrast 0 the factor is 1 and the curve is a pure brightness shift. */
  function Tone(v: Byte, brightness: real, contrast: real): (r: real)
    ensures contrast == 0.0 ==> r == v as real + brightness * 2.55
  {
    var c := (contrast + 100.0) / 100.0;
    (v as real - 128.0) * (c * c) + 128.0 + brightness * 2.55
  }

  /** The buffer returned by the pass: colour bytes are the stored tone
      curve, alpha bytes are copied. */
  function Toned(data: seq<Byte>, brightness: real, contrast: real): (r: seq<Byte>)
    ensures |r| == |data|
    ensures forall j :: 0 <= j < |r| && j % 4 == 3 ==> r[j] == data[j]
  {
    seq(|data|, j requires 0 <= j < |data| =>
      if j % 4 == 3 then data[j] else ClampByte(Tone(data[j], brightness, contrast)))
  }

  /** Brightness 0 and contrast 0 give factor 1: every byte is kept. */
  lemma TonedNeutral(data: seq<Byte>)
    ensures Toned(data, 0.0, 0.0) == data
  {
    forall j | 0 <= j < |data|
      ensures Toned(data, 0.0, 0.0)[j] == data[j]
    {
      assert Tone(data[j], 0.0, 0.0) == data[j] as real;
    }
  }

  /** The squared factor is never negative, so the curve keeps the order of
      bytes for every setting. */
  lemma {:induction false} ToneMonotone(v: Byte, w: Byte, brightness: real, contrast: real)
    requires v <= w
    ensures ClampByte(Tone(v, brightness, contrast)) <= ClampByte(Tone(w, brightness, contrast))
  {
    var c := (contrast + 100.0) / 100.0;
    assert c * c >= 0.0;
    RealMulMonotone(v as real - 128.0, w as real - 128.0, c * c);
    ClampByteMonotone(Tone(v, brightness, contrast), Tone(w, brightness, contrast));
  }

  /** Contrast -100 makes the factor 0: every colour byte becomes the same
      grey, `128 + 2.55 brightness` stored. */
  lemma ToneFlat(v: Byte, brightness: real)
    ensures Tone(v, brightness, -100.0) == 128.0 + brightness * 2.55
  {
  }

  // ---------------------------------------------------------------------
  // Threshold pattern
  // ---------------------------------------------------------------------

  /** A loaded pattern: the R byte of every pattern pixel, row by row, and
      the pattern image's width. */
  datatype Pattern = Pattern(matrix: seq<Byte>, size: nat)

  /** `pattern.matrix[pIndex]` for block (bcol, brow), with
      `pIndex = (brow mod size) size + (bcol mod size)`. An index past the end
      of the matrix (a pattern image shorter than it is wide) or a zero
      size reads `undefined`, written `None`. */
  function ThresholdAt(p: Pattern, bcol: nat, brow: nat): (t: Option<Byte>)
    ensures t.Some? ==> t.value in p.matrix
    ensures p.size >= 1 && |p.matrix| >= p.size * p.size ==> t.Some?
  {
    assert p.size >= 1 ==> (brow % p.size) * p.size <= (p.size - 1) * p.size by {
      if p.size >= 1 { MulMonotone(brow % p.size, p.size - 1, p.size); }
    }
    if p.size == 0 then None
    else
      var idx := (brow % p.size) * p.size + bcol % p.size;
      if idx < |p.matrix| then Some(p.matrix[idx]) else None
  }

  /** A square pattern always yields a threshold, and it tiles: moving a
      whole pattern width in either direction gives the same threshold. */
  lemma {:induction false} ThresholdTiles(p: Pattern, bcol: nat, brow: nat)
    requires p.size >= 1 && |p.matrix| == p.size * p.size
    ensures ThresholdAt(p, bcol, brow).Some?
    ensures ThresholdAt(p, bcol, brow).value == p.matrix[(brow % p.size) * p.size + bcol % p.size]
    ensures ThresholdAt(p, bcol + p.size, brow) == ThresholdAt(p, bcol, brow)
    ensures ThresholdAt(p, bcol, brow + p.size) == ThresholdAt(p, bcol, brow)
  {
    var n := p.size;
    MulMonotone(brow % n, n - 1, n);
    DivModUnique(bcol + n, n, bcol / n + 1, bcol % n);
    DivModUnique(brow + n, n, brow / n + 1, brow % n);
  }

  /** `v >= threshold`; a comparison with `undefined` is false. */
  predicate Passes(v: real, t: Option<Byte>)
  {
    t.Some? && v >= t.value as real
  }

  /** The value written for a block: the level when the compared value
      reaches the threshold, otherwise one level lower, floored at 0. */
  function Shade(compared: real, level: real, t: Option<Byte>, steps: int): (r: real)
    requires steps >= 2
    ensures level >= 0.0 ==> 0.0 <= r <= level
    ensures level > 0.0 ==> (r == level <==> Passes(compared, t))
  {
    if Passes(compared, t) then level else RealMax(0.0, level - Step(steps))
  }

  /** Failing the threshold drops exactly one level (none at level 0). */
  lemma {:induction false} ShadeDropsOneLevel(compared: real, k: int, t: Option<Byte>, steps: int)
    requires steps >= 2 && 0 <= k <= steps - 1
    ensures Shade(compared, k as real * Step(steps), t, steps)
         == (if Passes(compared, t) then k else Max(0, k - 1)) as real * Step(steps)
  {
    var s := Step(steps);
    assert k as real * s - s == (k - 1) as real * s;
    if k >= 1 {
      RealMulMonotone(0.0, (k - 1) as real, s);
    } else {
      assert k as real * s - s == -s;
    }
  }

  /** A quantised byte-ranged value after the threshold test is level k of
      the value or the level below it, and stays in [0, 255]. */
  lemma {:induction false} ShadeQuantized(compared: real, value: real, t: Option<Byte>, steps: int)
    requires steps >= 2 && 0.0 <= value <= 255.0
    ensures var k := Round(value / Step(steps));
            0 <= k <= steps - 1 &&
            Shade(compared, Quantize(value, steps), t, steps)
              == (if Passes(compared, t) then k else Max(0, k - 1)) as real * Step(steps)
    ensures 0.0 <= Shade(compared, Quantize(value, steps), t, steps) <= 255.0
  {
    var k := Round(value / Step(steps));
    QuantizeLevel(value, steps);
    ShadeDropsOneLevel(compared, k, t, steps);
    var k' := if Passes(compared, t) then k else Max(0, k - 1);
    RealMulMonotone(0.0, k' as real, Step(steps));
    RealMulMonotone(k' as real, k as real, Step(steps));
  }

  // ---------------------------------------------------------------------
  // Blocks
  // ---------------------------------------------------------------------

  /** A rectangle of pixels: top-left corner (x, y), width w, height h. */
  datatype Block = Block(x: nat, y: nat, w: nat, h: nat)

  predicate InImage(b: Block, width: int, height: int)
  {
    1 <= b.w && 1 <= b.h && b.x + b.w <= width && b.y + b.h <= height
  }

  /** The block holding pixel (col, row): it starts at the multiple of
      pixelSize at or below each coordinate and is clipped by the image. */
  function BlockAt(width: int, height: int, ps: int, col: int, row: int): (b: Block)
    requires ps >= 1 && 0 <= col < width && 0 <= row < height
    ensures InImage(b, width, height)
    ensures b.x <= col < b.x + b.w && b.y <= row < b.y + b.h
    ensures b.x == (col / ps) * ps && b.y == (row / ps) * ps
  {
    DivFloor(col, ps);
    DivFloor(row, ps);
    var x0, y0 := (col / ps) * ps, (row / ps) * ps;
    Block(x0, y0, Min(ps, width - x0), Min(ps, height - y0))
  }

  /** Every pixel lies in exactly one block: any block origin that is a
      multiple of pixelSize and within pixelSize of the pixel is the one
      BlockAt finds. */
  lemma {:induction false} BlockOfPixel(width: int, height: int, ps: int, bcol: int, brow: int, col: int, row: int)
    requires ps >= 1 && 0 <= col < width && 0 <= row < height
    requires 0 <= bcol && bcol * ps <= col < bcol * ps + ps
    requires 0 <= brow && brow * ps <= row < brow * ps + ps
    ensures col / ps == bcol && row / ps == brow
    ensures BlockAt(width, height, ps, col, row)
         == Block(bcol * ps, brow * ps, Min(ps, width - bcol * ps), Min(ps, height - brow * ps))
  {
    DivModUnique(col, ps, bcol, col - bcol * ps);
    DivModUnique(row, ps, brow, row - brow * ps);
  }

  /** Sum of channel c over n pixels of `row`, from column x0. */
  function RowSum(data: seq<Byte>, width: int, height: int, x0: nat, row: nat, n: nat, c: nat): (s: int)
    requires width >= 1 && height >= 1 && |data| == width * height * 4
    requires x0 + n <= width && row < height && c < 4
    ensures 0 <= s <= 255 * n
  {
    if n == 0 then 0
    else
      PixelBase(width, height, x0 + n - 1, row);
      RowSum(data, width, height, x0, row, n - 1, c) + data[(row * width + x0 + n - 1) * 4 + c]
  }

  /** Sum of channel c over the first `rows` rows of block b. */
  function RectSum(data: seq<Byte>, width: int, height: int, b: Block, rows: nat, c: nat): (s: int)
    requires width >= 1 && height >= 1 && |data| == width * height * 4
    requires b.x + b.w <= width && b.y + rows <= height && c < 4
    ensures 0 <= s <= 255 * (b.w * rows)
  {
    if rows == 0 then 0
    else
      assert b.w * rows == b.w * (rows - 1) + b.w;
      RectSum(data, width, height, b, rows - 1, c) + RowSum(data, width, height, b.x, b.y + rows - 1, b.w, c)
  }

  /** An average of n values in [0, k] lies in [0, k]. */
  lemma {:induction false} MeanBound(total: real, n: int, k: real)
    requires n >= 1 && 0.0 <= total <= k * n as real
    ensures 0.0 <= total / n as real <= k
  {
    var q := total / n as real;
    assert q * n as real == total;
    assert (k - q) * n as real == k * n as real - total;
  }

  /** The block average of `(r + g + b) / 3`. */
  function GrayMean(data: seq<Byte>, width: int, height: int, b: Block): (m: real)
    requires width >= 1 && height >= 1 && |data| == width * height * 4 && InImage(b, width, height)
    ensures 0.0 <= m <= 255.0
  {
    var n := b.w * b.h;
    var total := RectSum(data, width, height, b, b.h, 0) + RectSum(data, width, height, b, b.h, 1)
               + RectSum(data, width, height, b, b.h, 2);
    MulMonotone(1, b.w, b.h);
    assert total <= 765 * n;
    MeanBound(total as real / 3.0, n, 255.0);
    total as real / 3.0 / n as real
  }

  /** The block average of channel c. */
  function ChannelMean(data: seq<Byte>, width: int, height: int, b: Block, c: nat): (m: real)
    requires width >= 1 && height >= 1 && |data| == width * height * 4 && InImage(b, width, height) && c < 3
    ensures 0.0 <= m <= 255.0
  {
    var n := b.w * b.h;
    MulMonotone(1, b.w, b.h);
    MeanBound(RectSum(data, width, height, b, b.h, c) as real, n, 255.0);
    RectSum(data, width, height, b, b.h, c) as real / n as real
  }

  /** The BW value of block b, whose block coordinates are (bcol, brow): the
      mean is quantised and compared with the threshold. */
  function BWValue(data: seq<Byte>, width: int, height: int, p: Pattern, steps: int,
                   b: Block, bcol: nat, brow: nat): real
    requires width >= 1 && height >= 1 && |data| == width * height * 4 && InImage(b, width, height)
    requires steps >= 2
  {
    var mean := GrayMean(data, width, height, b);
    Shade(mean, Quantize(mean, steps), ThresholdAt(p, bcol, brow), steps)
  }

  /** The RGB value of channel c of block b: the quantised channel mean is
      what gets compared with the threshold. */
  function RGBValue(data: seq<Byte>, width: int, height: int, p: Pattern, steps: int,
                    b: Block, bcol: nat, brow: nat, c: nat): real
    requires width >= 1 && height >= 1 && |data| == width * height * 4 && InImage(b, width, height)
    requires steps >= 2 && c < 3
  {
    var level := Quantize(ChannelMean(data, width, height, b, c), steps);
    Shade(level, level, ThresholdAt(p, bcol, brow), steps)
  }

  /** The BW value is level k of the block mean or the level below it. */
  lemma {:induction false} BWValueLevel(data: seq<Byte>, width: int, height: int, p: Pattern, steps: int,
                                        b: Block, bcol: nat, brow: nat)
    requires width >= 1 && height >= 1 && |data| == width * height * 4 && InImage(b, width, height)
    requires steps >= 2
    ensures var mean := GrayMean(data, width, height, b);
            var k := Round(mean / Step(steps));
            0 <= k <= steps - 1 &&
            BWValue(data, width, height, p, steps, b, bcol, brow)
              == (if Passes(mean, ThresholdAt(p, bcol, brow)) then k else Max(0, k - 1)) as real * Step(steps)
    ensures 0.0 <= BWValue(data, width, height, p, steps, b, bcol, brow) <= 255.0
  {
    var mean := GrayMean(data, width, height, b);
    ShadeQuantized(mean, mean, ThresholdAt(p, bcol, brow), steps);
  }

  /** Likewise for each channel in RGB mode. */
  lemma {:induction false} RGBValueLevel(data: seq<Byte>, width: int, height: int, p: Pattern, steps: int,
                                         b: Block, bcol: nat, brow: nat, c: nat)
    requires width >= 1 && height >= 1 && |data| == width * height * 4 && InImage(b, width, height)
    requires steps >= 2 && c < 3
    ensures var level := Quantize(ChannelMean(data, width, height, b, c), steps);
            var k := Round(ChannelMean(data, width, height, b, c) / Step(steps));
            0 <= k <= steps - 1 &&
            RGBValue(data, width, height, p, steps, b, bcol, brow, c)
              == (if Passes(level, ThresholdAt(p, bcol, brow)) then k else Max(0, k - 1)) as real * Step(steps)
    ensures 0.0 <= RGBValue(data, width, height, p, steps, b, bcol, brow, c) <= 255.0
  {
    var mean := ChannelMean(data, width, height, b, c);
    ShadeQuantized(Quantize(mean, steps), mean, ThresholdAt(p, bcol, brow), steps);
  }

  /** The shape every dither pass needs: a non-empty image of the stated
      size, at least two steps, a positive block size. */
  predicate Frame(data: seq<Byte>, width: int, height: int, steps: int, ps: int)
  {
    width >= 1 && height >= 1 && |data| == width * height * 4 && steps >= 2 && ps >= 1
  }

  /** The output of `applyDitherBW`, byte by byte: colour bytes carry the
      stored value of the pixel's block, alpha bytes are copied. */
  function DitherBW(data: seq<Byte>, width: int, height: int, p: Pattern, steps: int, ps: int): (r: seq<Byte>)
    requires Frame(data, width, height, steps, ps)
    ensures |r| == |data|
    ensures forall j :: 0 <= j < |r| && j % 4 == 3 ==> r[j] == data[j]
  {
    seq(|data|, j requires 0 <= j < |data| =>
      if j % 4 == 3 then data[j]
      else
        OffsetEncodes(width, height, j);
        var col, row := PixelCol(j, width), PixelRow(j, width);
        ClampByte(BWValue(data, width, height, p, steps, BlockAt(width, height, ps, col, row), col / ps, row / ps)))
  }

  /** The output of `applyDitherRGB`, byte by byte. */
  function DitherRGB(data: seq<Byte>, width: int, height: int, p: Pattern, steps: int, ps: int): (r: seq<Byte>)
    requires Frame(data, width, height, steps, ps)
    ensures |r| == |data|
    ensures forall j :: 0 <= j < |r| && j % 4 == 3 ==> r[j] == data[j]
  {
    seq(|data|, j requires 0 <= j < |data| =>
      if j % 4 == 3 then data[j]
      else
        OffsetEncodes(width, height, j);
        var col, row := PixelCol(j, width), PixelRow(j, width);
        ClampByte(RGBValue(data, width, height, p, steps, BlockAt(width, height, ps, col, row), col / ps, row / ps, j % 4)))
  }

  /** Two pixels of one block get the same colour bytes, and in BW mode R, G
      and B of a pixel agree. */
  lemma {:induction false} BlockUniform(data: seq<Byte>, width: int, height: int, p: Pattern, steps: int, ps: int,
                                        j: int, k: int)
    requires Frame(data, width, height, steps, ps)
    requires 0 <= j < |data| && 0 <= k < |data| && j % 4 != 3 && k % 4 != 3
    requires PixelCol(j, width) / ps == PixelCol(k, width) / ps
    requires PixelRow(j, width) / ps == PixelRow(k, width) / ps
    ensures DitherBW(data, width, height, p, steps, ps)[j] == DitherBW(data, width, height, p, steps, ps)[k]
    ensures j % 4 == k % 4 ==>
              DitherRGB(data, width, height, p, steps, ps)[j] == DitherRGB(data, width, height, p, steps, ps)[k]
  {
    OffsetEncodes(width, height, j);
    OffsetEncodes(width, height, k);
    var cj, rj := PixelCol(j, width), PixelRow(j, width);
    var ck, rk := PixelCol(k, width), PixelRow(k, width);
    assert BlockAt(width, height, ps, cj, rj) == BlockAt(width, height, ps, ck, rk);
  }

  /** A colour byte inside the block with block coordinates (bcol, brow)
      carries that block's value. */
  lemma {:induction false} BlockPixel(data: seq<Byte>, width: int, height: int, p: Pattern, steps: int, ps: int,
                                      bcol: nat, brow: nat, j: int)
    requires Frame(data, width, height, steps, ps)
    requires bcol * ps < width && brow * ps < height && 0 <= j < |data| && j % 4 != 3
    requires InBlock(j, width, bcol * ps, brow * ps, Min(ps, width - bcol * ps), Min(ps, height - brow * ps))
    ensures var b := Block(bcol * ps, brow * ps, Min(ps, width - bcol * ps), Min(ps, height - brow * ps));
            InImage(b, width, height) &&
            DitherBW(data, width, height, p, steps, ps)[j] == ClampByte(BWValue(data, width, height, p, steps, b, bcol, brow)) &&
            DitherRGB(data, width, height, p, steps, ps)[j] == ClampByte(RGBValue(data, width, height, p, steps, b, bcol, brow, j % 4))
  {
    OffsetEncodes(width, height, j);
    BlockOfPixel(width, height, ps, bcol, brow, PixelCol(j, width), PixelRow(j, width));
  }

  /** Filling BW block (bcol, brow) with its stored value writes exactly
      the pass's output there. */
  lemma BlockPaintBW(data: seq<Byte>, width: int, height: int, p: Pattern, steps: int, ps: int,
                     bcol: nat, brow: nat, b: Block, v: Byte)
    requires Frame(data, width, height, steps, ps)
    requires bcol * ps < width && brow * ps < height
    requires b == Block(bcol * ps, brow * ps, Min(ps, width - bcol * ps), Min(ps, height - brow * ps))
    requires v == ClampByte(BWValue(data, width, height, p, steps, b, bcol, brow))
    ensures forall j :: 0 <= j < |data| && InBlock(j, width, b.x, b.y, b.w, b.h) ==>
              DitherBW(data, width, height, p, steps, ps)[j] == Paint(data, j, v, v, v)
  {
    forall j | 0 <= j < |data| && InBlock(j, width, b.x, b.y, b.w, b.h) && j % 4 != 3
      ensures DitherBW(data, width, height, p, steps, ps)[j] == v
    {
      BlockPixel(data, width, height, p, steps, ps, bcol, brow, j);
    }
  }

  /** Filling RGB block (bcol, brow) with its stored values writes exactly
      the pass's output there. */
  lemma BlockPaintRGB(data: seq<Byte>, width: int, height: int, p: Pattern, steps: int, ps: int,
                      bcol: nat, brow: nat, b: Block, vr: Byte, vg: Byte, vb: Byte)
    requires Frame(data, width, height, steps, ps)
    requires bcol * ps < width && brow * ps < height
    requires b == Block(bcol * ps, brow * ps, Min(ps, width - bcol * ps), Min(ps, height - brow * ps))
    requires vr == ClampByte(RGBValue(data, width, height, p, steps, b, bcol, brow, 0))
    requires vg == ClampByte(RGBValue(data, width, height, p, steps, b, bcol, brow, 1))
    requires vb == ClampByte(RGBValue(data, width, height, p, steps, b, bcol, brow, 2))
    ensures forall j :: 0 <= j < |data| && InBlock(j, width, b.x, b.y, b.w, b.h) ==>
              DitherRGB(data, width, height, p, steps, ps)[j] == Paint(data, j, vr, vg, vb)
  {
    forall j | 0 <= j < |data| && InBlock(j, width, b.x, b.y, b.w, b.h) && j % 4 != 3
      ensures DitherRGB(data, width, height, p, steps, ps)[j] == Paint(data, j, vr, vg, vb)
    {
      BlockPixel(data, width, height, p, steps, ps, bcol, brow, j);
    }
  }

  // ---------------------------------------------------------------------
  // Progress of the block loops
  // ---------------------------------------------------------------------

  /** Byte j lies in the pixel rectangle at (x, y) of size w x h. */
  predicate InBlock(j: nat, width: int, x: int, y: int, w: int, h: int)
    requires width >= 1
  {
    y <= PixelRow(j, width) < y + h && x <= PixelCol(j, width) < x + w
  }

  /** The block loops have finished every pixel above row y, and those of
      the current band of rows left of column x. */
  predicate Done(j: nat, width: int, ps: int, x: int, y: int)
    requires width >= 1
  {
    PixelRow(j, width) < y || (PixelRow(j, width) < y + ps && PixelCol(j, width) < x)
  }

  /** Pixels x .. x+n-1 of one row are one contiguous range of pixel
      indices. */
  lemma {:induction false} RowRange(width: int, r: int, c: int, row: int, x: int, n: int)
    requires 0 <= c < width && 0 <= r && 0 <= row && 0 <= x && 0 <= n && x + n <= width
    ensures row * width + x <= r * width + c < row * width + x + n <==> (r == row && x <= c < x + n)
  {
    if r < row {
      MulMonotone(r + 1, row, width);
      assert (r + 1) * width == r * width + width;
    } else if r > row {
      MulMonotone(row + 1, r, width);
      assert (row + 1) * width == row * width + width;
    }
  }

  /** The bytes of n pixels of one row from column x form one contiguous
      range. */
  lemma {:induction false} RowSegment(width: int, height: int, j: int, row: int, x: int, n: int)
    requires width >= 1 && height >= 1 && 0 <= j < width * height * 4
    requires 0 <= row && 0 <= x && 0 <= n && x + n <= width
    ensures (row * width + x) * 4 <= j < (row * width + x + n) * 4
        <==> (PixelRow(j, width) == row && x <= PixelCol(j, width) < x + n)
  {
    OffsetEncodes(width, height, j);
    var r, c := PixelRow(j, width), PixelCol(j, width);
    var pixel := r * width + c;
    assert j == pixel * 4 + j % 4;
    assert (row * width + x) * 4 <= j < (row * width + x + n) * 4 <==> row * width + x <= pixel < row * width + x + n;
    RowRange(width, r, c, row, x, n);
  }

  lemma {:induction false} DoneAfterBlock(width: int, height: int, ps: int, x: int, y: int, j: int)
    requires width >= 1 && height >= 1 && ps >= 1 && 0 <= j < width * height * 4
    requires 0 <= x < width && 0 <= y < height
    ensures Done(j, width, ps, x + ps, y)
        <==> Done(j, width, ps, x, y) || InBlock(j, width, x, y, Min(ps, width - x), Min(ps, height - y))
  {
    OffsetEncodes(width, height, j);
  }

  lemma {:induction false} DoneAfterRow(width: int, height: int, ps: int, x: int, y: int, j: int)
    requires width >= 1 && height >= 1 && ps >= 1 && 0 <= j < width * height * 4 && x >= width
    ensures Done(j, width, ps, x, y) <==> PixelRow(j, width) < y + ps
    ensures Done(j, width, ps, 0, y) <==> PixelRow(j, width) < y
  {
    OffsetEncodes(width, height, j);
  }

  // ---------------------------------------------------------------------
  // Loop bodies
  // ---------------------------------------------------------------------

  /** What the fill loop writes at byte j: the block's R, G or B value, or
      the source pixel's alpha. */
  function Paint(data: seq<Byte>, j: nat, vr: Byte, vg: Byte, vb: Byte): Byte
    requires j < |data|
  {
    if j % 4 == 0 then vr else if j % 4 == 1 then vg else if j % 4 == 2 then vb else data[j]
  }

  /** The inner loop of the BW average: sums `(r + g + b) / 3` over n
      pixels of one row and counts them. */
  method RowGraySum(data: array<Byte>, width: int, height: int, x: nat, row: nat, n: nat)
    returns (sum: real, count: int)
    requires width >= 1 && height >= 1 && data.Length == width * height * 4
    requires x + n <= width && row < height
    ensures count == n
    ensures sum == (RowSum(data[..], width, height, x, row, n, 0) + RowSum(data[..], width, height, x, row, n, 1)
                    + RowSum(data[..], width, height, x, row, n, 2)) as real / 3.0
  {
    sum, count := 0.0, 0;
    var px := 0;
    while px < n
      invariant 0 <= px <= n && count == px
      invariant sum == (RowSum(data[..], width, height, x, row, px, 0) + RowSum(data[..], width, height, x, row, px, 1)
                        + RowSum(data[..], width, height, x, row, px, 2)) as real / 3.0
    {
      PixelBase(width, height, x + px, row);
      var i := (row * width + (x + px)) * 4;
      assert 0 <= i && i + 3 < data.Length;
      sum := sum + (data[i] as int + data[i + 1] as int + data[i + 2] as int) as real / 3.0;
      count := count + 1;
      px := px + 1;
    }
  }

  /** Sums `(r + g + b) / 3` over the block and counts its pixels. */
  method GraySum(data: array<Byte>, width: int, height: int, x: nat, y: nat, bw: nat, bh: nat)
    returns (sum: real, count: int)
    requires width >= 1 && height >= 1 && data.Length == width * height * 4
    requires InImage(Block(x, y, bw, bh), width, height)
    ensures count == bw * bh
    ensures sum / count as real == GrayMean(data[..], width, height, Block(x, y, bw, bh))
  {
    ghost var b := Block(x, y, bw, bh);
    sum, count := 0.0, 0;
    var py := 0;
    while py < bh
      invariant 0 <= py <= bh && count == py * bw
      invariant sum == (RectSum(data[..], width, height, b, py, 0) + RectSum(data[..], width, height, b, py, 1)
                        + RectSum(data[..], width, height, b, py, 2)) as real / 3.0
    {
      var rowSum, rowCount := RowGraySum(data, width, height, x, y + py, bw);
      sum := sum + rowSum;
      count := count + rowCount;
      assert (py + 1) * bw == py * bw + bw;
      py := py + 1;
    }
  }

  /** The inner loop of the RGB averages: sums each colour channel over n
      pixels of one row. */
  method RowChannelSums(data: array<Byte>, width: int, height: int, x: nat, row: nat, n: nat)
    returns (r: int, g: int, b: int, count: int)
    requires width >= 1 && height >= 1 && data.Length == width * height * 4
    requires x + n <= width && row < height
    ensures count == n
    ensures r == RowSum(data[..], width, height, x, row, n, 0)
    ensures g == RowSum(data[..], width, height, x, row, n, 1)
    ensures b == RowSum(data[..], width, height, x, row, n, 2)
  {
    r, g, b, count := 0, 0, 0, 0;
    var px := 0;
    while px < n
      invariant 0 <= px <= n && count == px
      invariant r == RowSum(data[..], width, height, x, row, px, 0)
      invariant g == RowSum(data[..], width, height, x, row, px, 1)
      invariant b == RowSum(data[..], width, height, x, row, px, 2)
    {
      PixelBase(width, height, x + px, row);
      var i := (row * width + (x + px)) * 4;
      assert 0 <= i && i + 3 < data.Length;
      r := r + data[i] as int;
      g := g + data[i + 1] as int;
      b := b + data[i + 2] as int;
      count := count + 1;
      px := px + 1;
    }
  }

  /** Sums each colour channel over the block and counts its pixels. */
  method ChannelSums(data: array<Byte>, width: int, height: int, x: nat, y: nat, bw: nat, bh: nat)
    returns (r: int, g: int, b: int, count: int)
    requires width >= 1 && height >= 1 && data.Length == width * height * 4
    requires InImage(Block(x, y, bw, bh), width, height)
    ensures count == bw * bh
    ensures r as real / count as real == ChannelMean(data[..], width, height, Block(x, y, bw, bh), 0)
    ensures g as real / count as real == ChannelMean(data[..], width, height, Block(x, y, bw, bh), 1)
    ensures b as real / count as real == ChannelMean(data[..], width, height, Block(x, y, bw, bh), 2)
  {
    ghost var blk := Block(x, y, bw, bh);
    r, g, b, count := 0, 0, 0, 0;
    var py := 0;
    while py < bh
      invariant 0 <= py <= bh && count == py * bw
      invariant r == RectSum(data[..], width, height, blk, py, 0)
      invariant g == RectSum(data[..], width, height, blk, py, 1)
      invariant b == RectSum(data[..], width, height, blk, py, 2)
    {
      var rowR, rowG, rowB, rowCount := RowChannelSums(data, width, height, x, y + py, bw);
      r, g, b := r + rowR, g + rowG, b + rowB;
      count := count + rowCount;
      assert (py + 1) * bw == py * bw + bw;
      py := py + 1;
    }
  }

  /** Writes n pixels of one row, from column x: the three colour values and
      the source pixel's alpha. */
  method FillRow(newData: array<Byte>, data: array<Byte>, width: int, height: int, x: nat, row: nat, n: nat,
                 vr: Byte, vg: Byte, vb: Byte)
    requires newData != data && width >= 1 && height >= 1
    requires newData.Length == data.Length == width * height * 4
    requires x + n <= width && row < height
    modifies newData
    ensures forall j :: 0 <= j < newData.Length ==>
              newData[j] == if (row * width + x) * 4 <= j < (row * width + x + n) * 4
                            then Paint(data[..], j, vr, vg, vb) else old(newData[j])
  {
    var px := 0;
    while px < n
      invariant 0 <= px <= n
      invariant forall j :: 0 <= j < newData.Length ==>
                  newData[j] == if (row * width + x) * 4 <= j < (row * width + x + px) * 4
                                then Paint(data[..], j, vr, vg, vb) else old(newData[j])
    {
      PixelBase(width, height, x + px, row);
      ghost var pixel := row * width + (x + px);
      var i := (row * width + (x + px)) * 4;
      DivModUnique(i, 4, pixel, 0);
      DivModUnique(i + 1, 4, pixel, 1);
      DivModUnique(i + 2, 4, pixel, 2);
      DivModUnique(i + 3, 4, pixel, 3);
      newData[i] := vr;
      newData[i + 1] := vg;
      newData[i + 2] := vb;
      newData[i + 3] := data[i + 3];
      px := px + 1;
    }
  }

  /** Writes every pixel of the block at (x, y) of size bw x bh. */
  method FillBlock(newData: array<Byte>, data: array<Byte>, width: int, height: int,
                   x: nat, y: nat, bw: nat, bh: nat, vr: Byte, vg: Byte, vb: Byte)
    requires newData != data && width >= 1 && height >= 1
    requires newData.Length == data.Length == width * height * 4
    requires x + bw <= width && y + bh <= height
    modifies newData
    ensures forall j :: 0 <= j < newData.Length ==>
              newData[j] == if InBlock(j, width, x, y, bw, bh) then Paint(data[..], j, vr, vg, vb) else old(newData[j])
  {
    var py := 0;
    while py < bh
      invariant 0 <= py <= bh
      invariant forall j :: 0 <= j < newData.Length ==>
                  newData[j] == if InBlock(j, width, x, y, bw, py) then Paint(data[..], j, vr, vg, vb) else old(newData[j])
    {
      FillRow(newData, data, width, height, x, y + py, bw, vr, vg, vb);
      forall j | 0 <= j < newData.Length
        ensures InBlock(j, width, x, y, bw, py + 1)
            <==> InBlock(j, width, x, y, bw, py) || ((y + py) * width + x) * 4 <= j < ((y + py) * width + x + bw) * 4
      {
        RowSegment(width, height, j, y + py, x, bw);
      }
      py := py + 1;
    }
  }

  /** The BW block value: the block's average of `(r + g + b) / 3`,
      quantised, then dropped one level unless it reaches the threshold of
      block (bcol, brow), as stored in the output array. */
  method BlockValueBW(data: array<Byte>, width: int, height: int, p: Pattern, steps: int, pixelSize: int,
                      x: nat, y: nat, blockW: nat, blockH: nat, ghost bcol: nat, ghost brow: nat) returns (v: Byte)
    requires Frame(data[..], width, height, steps, pixelSize)
    requires x == bcol * pixelSize < width && y == brow * pixelSize < height
    requires blockW == Min(pixelSize, width - x) && blockH == Min(pixelSize, height - y)
    ensures v == ClampByte(BWValue(data[..], width, height, p, steps, Block(x, y, blockW, blockH), bcol, brow))
  {
    var sum, count := GraySum(data, width, height, x, y, blockW, blockH);
    var brightness := sum / count as real;
    var level := Quantize(brightness, steps);
    DivModUnique(x, pixelSize, bcol, 0);
    DivModUnique(y, pixelSize, brow, 0);
    var threshold := ThresholdAt(p, x / pixelSize, y / pixelSize);
    var value := if Passes(brightness, threshold) then level else RealMax(0.0, level - 255.0 / (steps - 1) as real);
    v := ClampByte(value);
  }

  /** The three RGB block values: each channel's block average, quantised,
      then dropped one level unless it reaches the threshold of block
      (bcol, brow), as stored in the output array. */
  method BlockValuesRGB(data: array<Byte>, width: int, height: int, p: Pattern, steps: int, pixelSize: int,
                        x: nat, y: nat, blockW: nat, blockH: nat, ghost bcol: nat, ghost brow: nat)
    returns (vr: Byte, vg: Byte, vb: Byte)
    requires Frame(data[..], width, height, steps, pixelSize)
    requires x == bcol * pixelSize < width && y == brow * pixelSize < height
    requires blockW == Min(pixelSize, width - x) && blockH == Min(pixelSize, height - y)
    ensures vr == ClampByte(RGBValue(data[..], width, height, p, steps, Block(x, y, blockW, blockH), bcol, brow, 0))
    ensures vg == ClampByte(RGBValue(data[..], width, height, p, steps, Block(x, y, blockW, blockH), bcol, brow, 1))
    ensures vb == ClampByte(RGBValue(data[..], width, height, p, steps, Block(x, y, blockW, blockH), bcol, brow, 2))
  {
    var r, g, b, count := ChannelSums(data, width, height, x, y, blockW, blockH);
    var qr := Quantize(r as real / count as real, steps);
    var qg := Quantize(g as real / count as real, steps);
    var qb := Quantize(b as real / count as real, steps);
    DivModUnique(x, pixelSize, bcol, 0);
    DivModUnique(y, pixelSize, brow, 0);
    var threshold := ThresholdAt(p, x / pixelSize, y / pixelSize);
    var drop := 255.0 / (steps - 1) as real;
    var rr := if Passes(qr, threshold) then qr else RealMax(0.0, qr - drop);
    var gg := if Passes(qg, threshold) then qg else RealMax(0.0, qg - drop);
    var bb := if Passes(qb, threshold) then qb else RealMax(0.0, qb - drop);
    vr, vg, vb := ClampByte(rr), ClampByte(gg), ClampByte(bb);
  }

  /** One iteration of the BW block loop: averages `(r + g + b) / 3` over
      the block at (x, y), quantises it, applies the threshold of block
      (bcol, brow) and writes the value to every pixel of the block. */
  method BlockBW(newData: array<Byte>, data: array<Byte>, width: int, height: int, p: Pattern, steps: int,
                 pixelSize: int, x: nat, y: nat, ghost bcol: nat, ghost brow: nat)
    requires Frame(data[..], width, height, steps, pixelSize)
    requires newData != data && newData.Length == data.Length
    requires x == bcol * pixelSize < width && y == brow * pixelSize < height
    modifies newData
    ensures forall j :: 0 <= j < newData.Length ==>
              newData[j] == if InBlock(j, width, x, y, Min(pixelSize, width - x), Min(pixelSize, height - y))
                            then DitherBW(data[..], width, height, p, steps, pixelSize)[j] else old(newData[j])
  {
    var blockW := Min(pixelSize, width - x);
    var blockH := Min(pixelSize, height - y);
    var v := BlockValueBW(data, width, height, p, steps, pixelSize, x, y, blockW, blockH, bcol, brow);
    FillBlock(newData, data, width, height, x, y, blockW, blockH, v, v, v);
    BlockPaintBW(data[..], width, height, p, steps, pixelSize, bcol, brow, Block(x, y, blockW, blockH), v);
  }

  /** One iteration of the RGB block loop: averages and quantises each
      channel, applies the threshold to each quantised channel, and writes
      the three values to every pixel of the block. */
  method BlockRGB(newData: array<Byte>, data: array<Byte>, width: int, height: int, p: Pattern, steps: int,
                  pixelSize: int, x: nat, y: nat, ghost bcol: nat, ghost brow: nat)
    requires Frame(data[..], width, height, steps, pixelSize)
    requires newData != data && newData.Length == data.Length
    requires x == bcol * pixelSize < width && y == brow * pixelSize < height
    modifies newData
    ensures forall j :: 0 <= j < newData.Length ==>
              newData[j] == if InBlock(j, width, x, y, Min(pixelSize, width - x), Min(pixelSize, height - y))
                            then DitherRGB(data[..], width, height, p, steps, pixelSize)[j] else old(newData[j])
  {
    var blockW := Min(pixelSize, width - x);
    var blockH := Min(pixelSize, height - y);
    var vr, vg, vb := BlockValuesRGB(data, width, height, p, steps, pixelSize, x, y, blockW, blockH, bcol, brow);
    FillBlock(newData, data, width, height, x, y, blockW, blockH, vr, vg, vb);
    BlockPaintRGB(data[..], width, height, p, steps, pixelSize, bcol, brow, Block(x, y, blockW, blockH), vr, vg, vb);
  }

  // ---------------------------------------------------------------------
  // The engine
  // ---------------------------------------------------------------------

  /** A setting's value: a number or a string. */
  datatype SettingValue = Number(n: real) | Text(s: string)

  /** `{...current, ...update}`: the keys of both, with update's value where
      both have one. */
  function Merge(current: map<string, SettingValue>, update: map<string, SettingValue>): (r: map<string, SettingValue>)
    ensures r.Keys == current.Keys + update.Keys
    ensures forall k :: k in update ==> r[k] == update[k]
    ensures forall k :: k in current && k !in update ==> r[k] == current[k]
  {
    current + update
  }

  /** Two updates in a row equal one update with their merge, so repeating
      an update changes nothing. */
  lemma MergeSequential(s: map<string, SettingValue>, a: map<string, SettingValue>, b: map<string, SettingValue>)
    ensures Merge(Merge(s, a), b) == Merge(s, Merge(a, b))
    ensures Merge(Merge(s, a), a) == Merge(s, a)
  {
  }

  /** The settings a new engine starts with. */
  function DefaultSettings(): (m: map<string, SettingValue>)
    ensures m.Keys == {"mode", "brightness", "contrast", "steps", "pixelSize", "patternSrc", "outputQuality"}
  {
    map["mode" := Text("bw"), "brightness" := Number(0.0), "contrast" := Number(0.0),
        "steps" := Number(2.3), "pixelSize" := Number(5.0),
        "patternSrc" := Text("patterns/dither-pattern-1.png"), "outputQuality" := Number(2.0)]
  }

  class DitherEngine {
    var settings: map<string, SettingValue>

    constructor()
      ensures settings == DefaultSettings()
    {
      settings := DefaultSettings();
    }

    /** Supplied keys take their new values, every other key keeps its own. */
    method UpdateSettings(newSettings: map<string, SettingValue>)
      modifies this
      ensures settings == Merge(old(settings), newSettings)
    {
      settings := Merge(settings, newSettings);
    }

    /** Returns a fresh buffer holding the tone-curved colour bytes and the
        copied alpha bytes; the input is only read. */
    method ApplyBrightnessContrast(data: array<Byte>, brightness: real, contrast: real) returns (newData: array<Byte>)
      requires data.Length % 4 == 0
      ensures fresh(newData)
      ensures newData[..] == Toned(data[..], brightness, contrast)
    {
      newData := new Byte[data.Length](_ => 0);
      ghost var spec := Toned(data[..], brightness, contrast);
      ghost var pixel := 0;
      var i := 0;
      while i < data.Length
        invariant 0 <= i <= data.Length && i == 4 * pixel
        invariant forall j :: 0 <= j < i ==> newData[j] == spec[j]
      {
        DivLower(data.Length, 4, pixel + 1);
        var j := 0;
        while j < 3
          invariant 0 <= j <= 3
          invariant forall k :: 0 <= k < i + j ==> newData[k] == spec[k]
        {
          DivModUnique(i + j, 4, pixel, j);
          newData[i + j] := ClampByte(Tone(data[i + j], brightness, contrast));
          j := j + 1;
        }
        DivModUnique(i + 3, 4, pixel, 3);
        newData[i + 3] := data[i + 3];
        i := i + 4;
        pixel := pixel + 1;
      }
      assert newData[..] == spec;
    }

    /** Block-averaged BW dither into a fresh buffer: blocks are visited
        row by row, each is averaged, quantised and written whole. */
    method ApplyDitherBW(data: array<Byte>, width: int, height: int, p: Pattern, steps: int, pixelSize: int)
      returns (newData: array<Byte>)
      requires Frame(data[..], width, height, steps, pixelSize)
      ensures fresh(newData)
      ensures newData[..] == DitherBW(data[..], width, height, p, steps, pixelSize)
    {
      newData := new Byte[data.Length](_ => 0);
      ghost var spec := DitherBW(data[..], width, height, p, steps, pixelSize);
      var y := 0;
      ghost var brow := 0;
      while y < height
        invariant y == brow * pixelSize && 0 <= brow
        invariant forall j :: 0 <= j < newData.Length && PixelRow(j, width) < y ==> newData[j] == spec[j]
      {
        var x := 0;
        ghost var bcol := 0;
        forall j | 0 <= j < newData.Length
          ensures Done(j, width, pixelSize, 0, y) <==> PixelRow(j, width) < y
        {
          DoneAfterRow(width, height, pixelSize, width, y, j);
        }
        while x < width
          invariant x == bcol * pixelSize && 0 <= bcol
          invariant forall j :: 0 <= j < newData.Length && Done(j, width, pixelSize, x, y) ==> newData[j] == spec[j]
        {
          BlockBW(newData, data, width, height, p, steps, pixelSize, x, y, bcol, brow);
          forall j | 0 <= j < newData.Length && Done(j, width, pixelSize, x + pixelSize, y)
            ensures newData[j] == spec[j]
          {
            DoneAfterBlock(width, height, pixelSize, x, y, j);
          }
          assert x + pixelSize == (bcol + 1) * pixelSize;
          x := x + pixelSize;
          bcol := bcol + 1;
        }
        forall j | 0 <= j < newData.Length
          ensures Done(j, width, pixelSize, x, y) <==> PixelRow(j, width) < y + pixelSize
        {
          DoneAfterRow(width, height, pixelSize, x, y, j);
        }
        assert y + pixelSize == (brow + 1) * pixelSize;
        y := y + pixelSize;
        brow := brow + 1;
      }
      forall j | 0 <= j < newData.Length
        ensures newData[j] == spec[j]
      {
        OffsetEncodes(width, height, j);
      }
      assert newData[..] == spec;
    }

    /** Block-averaged RGB dither into a fresh buffer: blocks are visited
        row by row, each is averaged, quantised and written whole. */
    method ApplyDitherRGB(data: array<Byte>, width: int, height: int, p: Pattern, steps: int, pixelSize: int)
      returns (newData: array<Byte>)
      requires Frame(data[..], width, height, steps, pixelSize)
      ensures fresh(newData)
      ensures newData[..] == DitherRGB(data[..], width, height, p, steps, pixelSize)
    {
      newData := new Byte[data.Length](_ => 0);
      ghost var spec := DitherRGB(data[..], width, height, p, steps, pixelSize);
      var y := 0;
      ghost var brow := 0;
      while y < height
        invariant y == brow * pixelSize && 0 <= brow
        invariant forall j :: 0 <= j < newData.Length && PixelRow(j, width) < y ==> newData[j] == spec[j]
      {
        var x := 0;
        ghost var bcol := 0;
        forall j | 0 <= j < newData.Length
          ensures Done(j, width, pixelSize, 0, y) <==> PixelRow(j, width) < y
        {
          DoneAfterRow(width, height, pixelSize, width, y, j);
        }
        while x < width
          invariant x == bcol * pixelSize && 0 <= bcol
          invariant forall j :: 0 <= j < newData.Length && Done(j, width, pixelSize, x, y) ==> newData[j] == spec[j]
        {
          BlockRGB(newData, data, width, height, p, steps, pixelSize, x, y, bcol, brow);
          forall j | 0 <= j < newData.Length && Done(j, width, pixelSize, x + pixelSize, y)
            ensures newData[j] == spec[j]
          {
            DoneAfterBlock(width, height, pixelSize, x, y, j);
          }
          assert x + pixelSize == (bcol + 1) * pixelSize;
          x := x + pixelSize;
          bcol := bcol + 1;
        }
        forall j | 0 <= j < newData.Length
          ensures Done(j, width, pixelSize, x, y) <==> PixelRow(j, width) < y + pixelSize
        {
          DoneAfterRow(width, height, pixelSize, x, y, j);
        }
        assert y + pixelSize == (brow + 1) * pixelSize;
        y := y + pixelSize;
        brow := brow + 1;
      }
      forall j | 0 <= j < newData.Length
        ensures newData[j] == spec[j]
      {
        OffsetEncodes(width, height, j);
      }
      assert newData[..] == spec;
    }
  }
}
