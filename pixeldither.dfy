/** The per-pixel pipeline of the main page: the in-place tone curve, the
    ordered dither of a downsampled grid against a tiled threshold
    pattern, the grid size, and the name of the exported file.
    RGBA buffers are flat sequences or arrays of bytes, four per pixel,
    row by row. */
module PixelDither {
  import opened Bytes

  // ---------------------------------------------------------------------
  // Brightness and contrast (in place)
  // ---------------------------------------------------------------------

  /** The tone curve applied to one colour byte: contrast about 128 with
      factor `contrast / 100`, then the brightness offset, then
      `Math.round` and a clamp to [0,255]. At contrast 100 the curve is a
      pure brightness shift. */
  function ToneCurve(v: Byte, brightness: int, contrast: int): (r: Byte)
    ensures contrast == 100 ==> r == ClampInt(v + brightness)
  {
    assert contrast == 100 ==>
      ((v - 128) * contrast) as real / 100.0 + 128.0 + brightness as real == (v + brightness) as real;
    ClampInt(Round(((v - 128) * contrast) as real / 100.0 + 128.0 + brightness as real))
  }

  /** The neutral settings leave every byte as it is, so skipping the pass
      for them changes nothing. */
  lemma ToneCurveNeutral(v: Byte)
    ensures ToneCurve(v, 0, 100) == v
  {
    assert ((v - 128) * 100) as real / 100.0 + 128.0 + 0 as real == v as real;
  }

  /** With a non-negative contrast the curve preserves the order of bytes. */
  lemma {:induction false} ToneCurveMonotone(v: Byte, w: Byte, brightness: int, contrast: int)
    requires v <= w && contrast >= 0
    ensures ToneCurve(v, brightness, contrast) <= ToneCurve(w, brightness, contrast)
  {
    MulMonotone(v - 128, w - 128, contrast);
    var a := ((v - 128) * contrast) as real / 100.0 + 128.0 + brightness as real;
    var b := ((w - 128) * contrast) as real / 100.0 + 128.0 + brightness as real;
    assert a <= b;
    RoundMonotone(a, b);
    ClampIntMonotone(Round(a), Round(b));
  }

  /** Contrast 0 flattens every colour byte to one grey fixed by brightness. */
  lemma ToneCurveFlat(v: Byte, w: Byte, brightness: int)
    ensures ToneCurve(v, brightness, 0) == ToneCurve(w, brightness, 0) == ClampInt(128 + brightness)
  {
    assert ((v - 128) * 0) as real / 100.0 + 128.0 + brightness as real == (128 + brightness) as real;
    assert ((w - 128) * 0) as real / 100.0 + 128.0 + brightness as real == (128 + brightness) as real;
  }

  /** The buffer after the pass: colour bytes go through the curve, the
      alpha byte of each pixel is never written. */
  function Toned(data: seq<Byte>, brightness: int, contrast: int): (r: seq<Byte>)
    ensures |r| == |data|
    ensures forall j :: 0 <= j < |r| && j % 4 == 3 ==> r[j] == data[j]
  {
    seq(|data|, j requires 0 <= j < |data| =>
      if j % 4 == 3 then data[j] else ToneCurve(data[j], brightness, contrast))
  }

  /** The neutral settings leave the whole buffer unchanged. */
  lemma TonedNeutral(data: seq<Byte>)
    ensures Toned(data, 0, 100) == data
  {
    forall j | 0 <= j < |data|
      ensures Toned(data, 0, 100)[j] == data[j]
    {
      ToneCurveNeutral(data[j]);
    }
  }

  /** Rewrites the R, G and B bytes of every pixel in place. */
  method ApplyBrightnessContrast(data: array<Byte>, brightness: int, contrast: int)
    requires data.Length % 4 == 0
    modifies data
    ensures data[..] == Toned(old(data[..]), brightness, contrast)
  {
    ghost var orig := data[..];
    ghost var spec := Toned(orig, brightness, contrast);
    ghost var pixel := 0;
    var i := 0;
    while i < data.Length
      invariant 0 <= i <= data.Length && i == 4 * pixel
      invariant forall j :: 0 <= j < i ==> data[j] == spec[j]
      invariant forall j :: i <= j < data.Length ==> data[j] == orig[j]
    {
      DivModUnique(data.Length, 4, data.Length / 4, 0);
      DivLower(data.Length, 4, pixel + 1);
      var c := 0;
      while c < 3
        invariant 0 <= c <= 3
        invariant forall j :: 0 <= j < i + c ==> data[j] == spec[j]
        invariant forall j :: i + c <= j < data.Length ==> data[j] == orig[j]
      {
        DivModUnique(i + c, 4, pixel, c);
        data[i + c] := ToneCurve(data[i + c], brightness, contrast);
        c := c + 1;
      }
      DivModUnique(i + 3, 4, pixel, 3);
      i := i + 4;
      pixel := pixel + 1;
    }
    assert data[..] == spec;
  }

  // ---------------------------------------------------------------------
  // Grid size
  // ---------------------------------------------------------------------

  /** `Math.ceil(W / pixelSize)`: the number of grid cells along one side. */
  function GridSize(extent: nat, pixelSize: int): (n: nat)
    requires pixelSize >= 1
    ensures (n - 1) * pixelSize < extent <= n * pixelSize
  {
    DivFloor(extent + pixelSize - 1, pixelSize);
    (extent + pixelSize - 1) / pixelSize
  }

  /** Every source pixel falls into a grid cell. */
  lemma {:induction false} GridCovers(extent: nat, pixelSize: int, x: nat)
    requires pixelSize >= 1 && x < extent
    ensures x / pixelSize < GridSize(extent, pixelSize)
  {
    var n := GridSize(extent, pixelSize);
    DivLower(x, pixelSize, n);
  }

  // ---------------------------------------------------------------------
  // Per-channel quantisation
  // ---------------------------------------------------------------------

  /** `Math.round(0.299 r + 0.587 g + 0.114 b)` with the weights as exact
      rationals. */
  function Gray(r: Byte, g: Byte, b: Byte): (v: Byte)
    ensures Min(r, Min(g, b)) <= v <= Max(r, Max(g, b))
  {
    var lo, hi := Min(r, Min(g, b)), Max(r, Max(g, b));
    var x := (299 * r + 587 * g + 114 * b) as real / 1000.0;
    assert (299 * lo + 587 * lo + 114 * lo) as real <= (299 * r + 587 * g + 114 * b) as real;
    assert (299 * r + 587 * g + 114 * b) as real <= (299 * hi + 587 * hi + 114 * hi) as real;
    assert lo as real <= x <= hi as real;
    RoundMonotone(lo as real, x);
    RoundMonotone(x, hi as real);
    Round(x)
  }

  /** The k-th of `steps` output levels, `Math.round(k * 255 / (steps-1))`. */
  function LevelValue(k: int, steps: int): int
    requires steps >= 2
  {
    Round((k * 255) as real / (steps - 1) as real)
  }

  lemma {:induction false} LevelValueMonotone(a: int, b: int, steps: int)
    requires steps >= 2 && a <= b
    ensures LevelValue(a, steps) <= LevelValue(b, steps)
  {
    MulMonotone(a, b, 255);
    RealDivMonotone((a * 255) as real, (b * 255) as real, (steps - 1) as real);
    RoundMonotone((a * 255) as real / (steps - 1) as real, (b * 255) as real / (steps - 1) as real);
  }

  /** Level 0 is black and the top level is white. */
  lemma LevelValueEnds(steps: int)
    requires steps >= 2
    ensures LevelValue(0, steps) == 0 && LevelValue(steps - 1, steps) == 255
  {
    assert (0 * 255) as real / (steps - 1) as real == 0.0;
    assert ((steps - 1) * 255) as real / (steps - 1) as real == 255.0;
  }

  lemma {:induction false} LevelValueRange(k: int, steps: int)
    requires steps >= 2 && 0 <= k <= steps - 1
    ensures 0 <= LevelValue(k, steps) <= 255
  {
    LevelValueEnds(steps);
    LevelValueMonotone(0, k, steps);
    LevelValueMonotone(k, steps - 1, steps);
  }

  /** The quantised value of one channel before inversion. Two steps use a
      plain threshold test; more steps use the threshold-biased floor
      `q = floor((v (steps-1) + t) / 255)` and output level q, capped
      at 255. */
  function Quantize(v: Byte, threshold: Byte, steps: int): Byte
    requires steps >= 2
  {
    var levels := steps - 1;
    if levels == 1 then
      (if v < threshold then 0 else 255)
    else
      var q := (v * levels + threshold) / 255;
      assert q >= 0 by {
        MulMonotone(0, v, levels);
      }
      LevelValueEnds(steps);
      LevelValueMonotone(0, q, steps);
      Min(255, LevelValue(q, steps))
  }

  /** Which level a channel lands on: q, except that q may reach steps only
      at v = t = 255, where the cap brings it back to the top level. */
  function LevelIndex(v: Byte, threshold: Byte, steps: int): int
    requires steps >= 2
  {
    if steps == 2 then (if v < threshold then 0 else 1)
    else Min((v * (steps - 1) + threshold) / 255, steps - 1)
  }

  /** Every quantised channel is one of the `steps` levels. */
  lemma {:induction false} QuantizeIsLevel(v: Byte, threshold: Byte, steps: int)
    requires steps >= 2
    ensures 0 <= LevelIndex(v, threshold, steps) <= steps - 1
    ensures Quantize(v, threshold, steps) == LevelValue(LevelIndex(v, threshold, steps), steps)
  {
    LevelValueEnds(steps);
    if steps > 2 {
      var levels := steps - 1;
      var q := (v * levels + threshold) / 255;
      MulMonotone(0, v, levels);
      assert q >= 0;
      if q <= levels {
        LevelValueRange(q, steps);
      } else {
        LevelValueMonotone(levels, q, steps);
      }
    }
  }

  /** The levels `0 .. n-1` as a set of byte values. */
  function LevelsBelow(n: nat, steps: int): (s: set<int>)
    requires steps >= 2
    ensures |s| <= n
    ensures forall k :: 0 <= k < n ==> LevelValue(k, steps) in s
  {
    if n == 0 then {} else LevelsBelow(n - 1, steps) + {LevelValue(n - 1, steps)}
  }

  /** A channel takes at most `steps` distinct values. */
  lemma QuantizeAtMostSteps(v: Byte, threshold: Byte, steps: int)
    requires steps >= 2
    ensures Quantize(v, threshold, steps) in LevelsBelow(steps, steps)
    ensures |LevelsBelow(steps, steps)| <= steps
  {
    QuantizeIsLevel(v, threshold, steps);
  }

  /** White stays white whatever the threshold. */
  lemma {:induction false} QuantizeWhite(threshold: Byte, steps: int)
    requires steps >= 2
    ensures Quantize(255, threshold, steps) == 255
  {
    if steps > 2 {
      var levels := steps - 1;
      DivLower(255 * levels + threshold, 255, levels);
      LevelValueEnds(steps);
      LevelValueMonotone(levels, (255 * levels + threshold) / 255, steps);
    }
  }

  /** Black stays black, except against threshold 0 with two steps (the
      test `0 < 0` fails) or threshold 255 with more (the bias lifts it one
      level). */
  lemma {:induction false} QuantizeBlack(threshold: Byte, steps: int)
    requires steps >= 2
    ensures steps == 2 ==> (Quantize(0, threshold, steps) == 0 <==> threshold > 0)
    ensures steps > 2 && threshold < 255 ==> Quantize(0, threshold, steps) == 0
  {
    if steps > 2 && threshold < 255 {
      assert 0 * (steps - 1) + threshold == threshold;
      DivLower(threshold, 255, 1);
      LevelValueEnds(steps);
    }
  }

  /** Brighter input never gives darker output. */
  lemma {:induction false} QuantizeMonotone(v: Byte, w: Byte, threshold: Byte, steps: int)
    requires steps >= 2 && v <= w
    ensures Quantize(v, threshold, steps) <= Quantize(w, threshold, steps)
  {
    if steps > 2 {
      var levels := steps - 1;
      MulMonotone(v, w, levels);
      DivMonotone(v * levels + threshold, w * levels + threshold, 255);
      LevelValueMonotone((v * levels + threshold) / 255, (w * levels + threshold) / 255, steps);
    }
  }

  /** The threshold acts in opposite directions in the two branches: with
      two steps a larger threshold can only darken a channel, with more steps
      it can only brighten it. */
  lemma {:induction false} ThresholdDirection(v: Byte, t: Byte, u: Byte, steps: int)
    requires steps >= 2 && t <= u
    ensures steps == 2 ==> Quantize(v, u, steps) <= Quantize(v, t, steps)
    ensures steps > 2 ==> Quantize(v, t, steps) <= Quantize(v, u, steps)
  {
    if steps > 2 {
      var levels := steps - 1;
      DivMonotone(v * levels + t, v * levels + u, 255);
      LevelValueMonotone((v * levels + t) / 255, (v * levels + u) / 255, steps);
    }
  }

  /** One output channel, after the optional inversion. */
  function Shade(v: Byte, threshold: Byte, steps: int, invert: bool): Byte
    requires steps >= 2
  {
    var out := Quantize(v, threshold, steps);
    if invert then 255 - out else out
  }

  // ---------------------------------------------------------------------
  // The dither pass
  // ---------------------------------------------------------------------

  datatype Mode = BW | RGB

  /** The shape of the inputs: a w x h image, a pW x pH pattern, both RGBA,
      and at least two steps. */
  predicate Inputs(src: seq<Byte>, w: int, h: int, pat: seq<Byte>, pW: int, pH: int, steps: int)
  {
    w >= 1 && h >= 1 && |src| == w * h * 4 &&
    pW >= 1 && pH >= 1 && |pat| == pW * pH * 4 && steps >= 2
  }

  /** Byte offset of the threshold for pixel (x, y): the pattern is tiled by
      `x mod pW` and `y mod pH`, and its R byte is used. */
  function PatternOffset(x: nat, y: nat, pW: int, pH: int): (i: nat)
    requires pW >= 1 && pH >= 1
    ensures i % 4 == 0 && i < pW * pH * 4
  {
    var py, px := y % pH, x % pW;
    MulMonotone(py, pH - 1, pW);
    assert py * pW + px < pW * pH;
    (py * pW + px) * 4
  }

  /** Channel c of output pixel (x, y). */
  function PixelOut(src: seq<Byte>, w: int, h: int, pat: seq<Byte>, pW: int, pH: int, steps: int,
                    mode: Mode, invert: bool, x: nat, y: nat, c: nat): Byte
    requires Inputs(src, w, h, pat, pW, pH, steps)
    requires x < w && y < h && c < 4
  {
    PixelBase(w, h, x, y);
    var base := (y * w + x) * 4;
    var t := pat[PatternOffset(x, y, pW, pH)];
    if c == 3 then 255
    else if mode == BW then Shade(Gray(src[base], src[base + 1], src[base + 2]), t, steps, invert)
    else Shade(src[base + c], t, steps, invert)
  }

  /** The whole output buffer, byte by byte. */
  function Dithered(src: seq<Byte>, w: int, h: int, pat: seq<Byte>, pW: int, pH: int, steps: int,
                    mode: Mode, invert: bool): (r: seq<Byte>)
    requires Inputs(src, w, h, pat, pW, pH, steps)
    ensures |r| == |src|
  {
    seq(|src|, j requires 0 <= j < |src| =>
      PixelCoords(w, h, j);
      PixelOut(src, w, h, pat, pW, pH, steps, mode, invert, (j / 4) % w, (j / 4) / w, j % 4))
  }

  /** Writes the four bytes of pixel (x, y): the quantised channels (one
      grey value three times in BW mode) and an opaque alpha. */
  method DitherPixel(dst: array<Byte>, src: seq<Byte>, w: int, h: int, pat: seq<Byte>, pW: int, pH: int,
                     steps: int, mode: Mode, invert: bool, x: int, y: int)
    requires Inputs(src, w, h, pat, pW, pH, steps)
    requires dst.Length == |src| && 0 <= x < w && 0 <= y < h
    modifies dst
    ensures 0 <= (y * w + x) * 4 && (y * w + x) * 4 + 4 <= dst.Length
    ensures forall j :: (y * w + x) * 4 <= j < (y * w + x) * 4 + 4 ==>
              dst[j] == PixelOut(src, w, h, pat, pW, pH, steps, mode, invert, x, y, j - (y * w + x) * 4)
    ensures forall j :: 0 <= j < dst.Length && !((y * w + x) * 4 <= j < (y * w + x) * 4 + 4) ==>
              dst[j] == old(dst[j])
  {
    PixelBase(w, h, x, y);
    var srcIdx := (y * w + x) * 4;
    var threshold := pat[PatternOffset(x, y, pW, pH)];
    if mode == BW {
      var outVal := Shade(Gray(src[srcIdx], src[srcIdx + 1], src[srcIdx + 2]), threshold, steps, invert);
      dst[srcIdx] := outVal;
      dst[srcIdx + 1] := outVal;
      dst[srcIdx + 2] := outVal;
    } else {
      var c := 0;
      while c < 3
        invariant 0 <= c <= 3
        invariant forall j :: srcIdx <= j < srcIdx + c ==> dst[j] == Shade(src[j], threshold, steps, invert)
        invariant forall j :: 0 <= j < dst.Length && !(srcIdx <= j < srcIdx + c) ==> dst[j] == old(dst[j])
      {
        dst[srcIdx + c] := Shade(src[srcIdx + c], threshold, steps, invert);
        c := c + 1;
      }
    }
    dst[srcIdx + 3] := 255;
  }

  /** Fills a fresh buffer pixel by pixel, row by row. */
  method DitherImage(src: seq<Byte>, w: int, h: int, pat: seq<Byte>, pW: int, pH: int, steps: int,
                     mode: Mode, invert: bool) returns (dst: array<Byte>)
    requires Inputs(src, w, h, pat, pW, pH, steps)
    ensures fresh(dst)
    ensures dst[..] == Dithered(src, w, h, pat, pW, pH, steps, mode, invert)
  {
    dst := new Byte[w * h * 4](_ => 0);
    ghost var spec := Dithered(src, w, h, pat, pW, pH, steps, mode, invert);
    var y := 0;
    while y < h
      invariant 0 <= y <= h && dst.Length == |spec| == w * h * 4
      invariant 0 <= y * w * 4 <= dst.Length
      invariant forall j :: 0 <= j < y * w * 4 ==> dst[j] == spec[j]
    {
      var x := 0;
      while x < w
        invariant 0 <= x <= w
        invariant 0 <= (y * w + x) * 4 <= dst.Length
        invariant forall j :: 0 <= j < (y * w + x) * 4 ==> dst[j] == spec[j]
      {
        DitherPixel(dst, src, w, h, pat, pW, pH, steps, mode, invert, x, y);
        ghost var base := (y * w + x) * 4;
        forall j | base <= j < base + 4
          ensures spec[j] == PixelOut(src, w, h, pat, pW, pH, steps, mode, invert, x, y, j - base)
        {
          OffsetDecodes(w, h, x, y, j - base);
        }
        assert (y * w + (x + 1)) * 4 == base + 4;
        x := x + 1;
      }
      assert (y * w + w) * 4 == (y + 1) * w * 4;
      MulMonotone(y + 1, h, w * 4);
      y := y + 1;
    }
    assert y * w * 4 == dst.Length;
    assert dst[..] == spec;
  }

  /** Byte j of the output, in terms of the pixel it belongs to. */
  lemma {:induction false} DitheredAt(src: seq<Byte>, w: int, h: int, pat: seq<Byte>, pW: int, pH: int,
                                      steps: int, mode: Mode, invert: bool, x: int, y: int, c: int)
    requires Inputs(src, w, h, pat, pW, pH, steps)
    requires 0 <= x < w && 0 <= y < h && 0 <= c < 4
    ensures 0 <= (y * w + x) * 4 + c < |src|
    ensures Dithered(src, w, h, pat, pW, pH, steps, mode, invert)[(y * w + x) * 4 + c]
         == PixelOut(src, w, h, pat, pW, pH, steps, mode, invert, x, y, c)
  {
    PixelBase(w, h, x, y);
    OffsetDecodes(w, h, x, y, c);
  }

  /** Every alpha byte of the output is opaque. */
  lemma AlphaOpaque(src: seq<Byte>, w: int, h: int, pat: seq<Byte>, pW: int, pH: int,
                    steps: int, mode: Mode, invert: bool, j: int)
    requires Inputs(src, w, h, pat, pW, pH, steps)
    requires 0 <= j < |src| && j % 4 == 3
    ensures Dithered(src, w, h, pat, pW, pH, steps, mode, invert)[j] == 255
  {
  }

  /** The threshold of pixel (x, y) is the pattern's R byte at
      `((y mod pH) pW + (x mod pW)) 4`; with two steps each channel is the
      plain threshold test. */
  lemma {:induction false} BinaryThreshold(src: seq<Byte>, w: int, h: int, pat: seq<Byte>, pW: int, pH: int,
                                           mode: Mode, x: int, y: int, c: int)
    requires Inputs(src, w, h, pat, pW, pH, 2)
    requires 0 <= x < w && 0 <= y < h && 0 <= c < 3
    ensures 0 <= ((y % pH) * pW + x % pW) * 4 < |pat|
    ensures 0 <= (y * w + x) * 4 + c < |src|
    ensures var t := pat[((y % pH) * pW + x % pW) * 4];
            var base := (y * w + x) * 4;
            var v := if mode == BW then Gray(src[base], src[base + 1], src[base + 2]) else src[base + c];
            Dithered(src, w, h, pat, pW, pH, 2, mode, false)[base + c] == (if v < t then 0 else 255)
  {
    DitheredAt(src, w, h, pat, pW, pH, 2, mode, false, x, y, c);
  }

  /** Inversion mirrors every colour byte, and BW mode writes one value to
      R, G and B. */
  lemma {:induction false} InvertAndGray(src: seq<Byte>, w: int, h: int, pat: seq<Byte>, pW: int, pH: int,
                                         steps: int, mode: Mode, x: int, y: int, c: int)
    requires Inputs(src, w, h, pat, pW, pH, steps)
    requires 0 <= x < w && 0 <= y < h && 0 <= c < 3
    ensures 0 <= (y * w + x) * 4 + c < |src|
    ensures var j := (y * w + x) * 4 + c;
            Dithered(src, w, h, pat, pW, pH, steps, mode, true)[j]
              == 255 - Dithered(src, w, h, pat, pW, pH, steps, mode, false)[j]
    ensures mode == BW ==>
            var base := (y * w + x) * 4;
            forall invert: bool ::
              Dithered(src, w, h, pat, pW, pH, steps, mode, invert)[base + c]
                == Dithered(src, w, h, pat, pW, pH, steps, mode, invert)[base]
  {
    DitheredAt(src, w, h, pat, pW, pH, steps, mode, true, x, y, c);
    DitheredAt(src, w, h, pat, pW, pH, steps, mode, false, x, y, c);
    DitheredAt(src, w, h, pat, pW, pH, steps, mode, true, x, y, 0);
    DitheredAt(src, w, h, pat, pW, pH, steps, mode, false, x, y, 0);
  }

  /** Every colour byte of the output is one of the `steps` levels (or its
      mirror image when inverted). */
  lemma {:induction false} OutputLevels(src: seq<Byte>, w: int, h: int, pat: seq<Byte>, pW: int, pH: int,
                                        steps: int, mode: Mode, j: int)
    requires Inputs(src, w, h, pat, pW, pH, steps)
    requires 0 <= j < |src| && j % 4 != 3
    ensures Dithered(src, w, h, pat, pW, pH, steps, mode, false)[j] in LevelsBelow(steps, steps)
  {
    PixelCoords(w, h, j);
    var x, y, c := (j / 4) % w, (j / 4) / w, j % 4;
    PixelBase(w, h, x, y);
    var base := (y * w + x) * 4;
    var t := pat[PatternOffset(x, y, pW, pH)];
    if mode == BW {
      QuantizeAtMostSteps(Gray(src[base], src[base + 1], src[base + 2]), t, steps);
    } else {
      QuantizeAtMostSteps(src[base + c], t, steps);
    }
  }

  // ---------------------------------------------------------------------
  // Export file name
  // ---------------------------------------------------------------------

  predicate IsDigit(ch: char) { '0' <= ch <= '9' }

  const PresetMarker: string := "dither-pattern-"

  /** The regular expression `dither-pattern-(\d+)` matches at offset i. */
  predicate MatchAt(s: string, i: nat)
  {
    i + |PresetMarker| < |s| && s[i..i + |PresetMarker|] == PresetMarker && IsDigit(s[i + |PresetMarker|])
  }

  /** The leftmost offset at or after i where the expression matches. */
  function FirstMatch(s: string, i: nat): (r: Option<nat>)
    decreases |s| - i
    ensures r.Some? ==> i <= r.value && MatchAt(s, r.value)
    ensures r.Some? ==> forall k :: i <= k < r.value ==> !MatchAt(s, k)
    ensures r.None? ==> forall k :: i <= k ==> !MatchAt(s, k)
  {
    if i + |PresetMarker| >= |s| then None
    else if MatchAt(s, i) then Some(i)
    else FirstMatch(s, i + 1)
  }

  /** The greedy `\d+`: the longest run of digits starting at k. */
  function DigitRun(s: string, k: nat): (d: string)
    requires k <= |s|
    decreases |s| - k
    ensures k + |d| <= |s| && d == s[k..k + |d|]
    ensures forall i :: 0 <= i < |d| ==> IsDigit(d[i])
    ensures k + |d| == |s| || !IsDigit(s[k + |d|])
  {
    if k < |s| && IsDigit(s[k]) then
      var rest := DigitRun(s, k + 1);
      assert [s[k]] + rest == s[k..k + 1 + |rest|];
      [s[k]] + rest
    else []
  }

  /** The captured number of a preset URL, if the expression matches. */
  function PresetNumber(url: string): (r: Option<string>)
    ensures r.Some? ==> |r.value| >= 1 && forall i :: 0 <= i < |r.value| ==> IsDigit(r.value[i])
  {
    match FirstMatch(url, 0)
    case Some(k) => Some(DigitRun(url, k + |PresetMarker|))
    case None => None
  }

  function DigitChar(d: int): char
    requires 0 <= d < 10
  {
    "0123456789"[d]
  }

  /** Decimal text of a natural number, as a template literal prints it. */
  function NatToString(n: nat): (s: string)
    ensures |s| >= 1 && forall i :: 0 <= i < |s| ==> IsDigit(s[i])
  {
    if n < 10 then [DigitChar(n)] else NatToString(n / 10) + [DigitChar(n % 10)]
  }

  /** The number a string of decimal digits denotes. */
  function DigitsValue(s: string): nat
    requires forall i :: 0 <= i < |s| ==> IsDigit(s[i])
  {
    if |s| == 0 then 0
    else
      assert IsDigit(s[|s| - 1]);
      DigitsValue(s[..|s| - 1]) * 10 + (s[|s| - 1] as int - '0' as int)
  }

  /** The printed number reads back as itself. */
  lemma {:induction false} NatToStringValue(n: nat)
    ensures DigitsValue(NatToString(n)) == n
  {
    if n >= 10 {
      var s := NatToString(n);
      assert s[..|s| - 1] == NatToString(n / 10);
      NatToStringValue(n / 10);
    }
  }

  /** `${n}` for an integer: a minus sign for a negative one, then its digits. */
  function IntToString(n: int): (s: string)
    ensures |s| >= 1
    ensures s[0] == '-' <==> n < 0
    ensures forall i :: 1 <= i < |s| ==> IsDigit(s[i])
  {
    if n < 0 then "-" + NatToString(-n) else NatToString(n)
  }

  /** `mode.toLowerCase()`. */
  function ModeName(mode: Mode): string
  {
    if mode == BW then "bw" else "rgb"
  }

  /** The pattern part of the export name: `pattern<N>` for a preset whose
      URL carries `dither-pattern-<N>`, and `custom` otherwise (a custom
      pattern, no URL, or no match). */
  function PatternName(isCustom: bool, url: Option<string>): string
  {
    if !isCustom && url.Some? && url.value != "" && PresetNumber(url.value).Some?
    then "pattern" + PresetNumber(url.value).value
    else "custom"
  }

  /** `<pattern>_steps<S>_<mode>.png`. */
  function ExportFileName(isCustom: bool, url: Option<string>, steps: int, mode: Mode): (name: string)
    ensures |name| > 4 && name[|name| - 4..] == ".png"
  {
    PatternName(isCustom, url) + "_steps" + IntToString(steps) + "_" + ModeName(mode) + ".png"
  }

  /** A URL in which the expression never matches carries no number. */
  lemma NoMatchNoNumber(s: string)
    requires forall k :: !MatchAt(s, k)
    ensures PresetNumber(s).None?
  {
    assert FirstMatch(s, 0).None?;
  }

  /** A custom pattern, a missing URL or a URL without the marker all give
      the `custom` prefix. */
  lemma CustomFileName(isCustom: bool, url: Option<string>, steps: int, mode: Mode)
    requires isCustom || url.None? || forall k :: !MatchAt(url.value, k)
    ensures ExportFileName(isCustom, url, steps, mode)
         == "custom" + "_steps" + IntToString(steps) + "_" + ModeName(mode) + ".png"
  {
    if !isCustom && url.Some? {
      NoMatchNoNumber(url.value);
    }
    assert PatternName(isCustom, url) == "custom";
  }

  lemma {:induction false} DigitRunOfDigits(d: string, rest: string, pre: string)
    requires forall i :: 0 <= i < |d| ==> IsDigit(d[i])
    requires |rest| == 0 || !IsDigit(rest[0])
    ensures DigitRun(pre + d + rest, |pre|) == d
    decreases |d|
  {
    var s := pre + d + rest;
    if |d| == 0 {
      assert s == pre + rest;
    } else {
      assert s[|pre|] == d[0];
      assert s == (pre + [d[0]]) + d[1..] + rest;
      DigitRunOfDigits(d[1..], rest, pre + [d[0]]);
    }
  }

  /** A match at m with none between i and m makes m the first match. */
  lemma {:induction false} FirstMatchAt(s: string, i: nat, m: nat)
    requires i <= m && MatchAt(s, m)
    requires forall k :: i <= k < m ==> !MatchAt(s, k)
    ensures FirstMatch(s, i) == Some(m)
    decreases m - i
  {
    if i < m {
      FirstMatchAt(s, i + 1, m);
    }
  }

  /** The number of a shipped preset URL `patterns/dither-pattern-<N>.png`
      is N. */
  lemma PresetUrlNumber(d: string)
    requires |d| >= 1 && forall i :: 0 <= i < |d| ==> IsDigit(d[i])
    ensures PresetNumber("patterns/dither-pattern-" + d + ".png") == Some(d)
  {
    var dir := "patterns/";
    var url := dir + PresetMarker + d + ".png";
    assert url == "patterns/dither-pattern-" + d + ".png";
    forall k | 0 <= k < 9
      ensures !MatchAt(url, k)
    {
      assert url[k] == dir[k];
    }
    assert url[9..9 + |PresetMarker|] == PresetMarker;
    assert url[9 + |PresetMarker|] == d[0];
    FirstMatchAt(url, 0, 9);
    DigitRunOfDigits(d, ".png", dir + PresetMarker);
  }

  /** The shipped presets export as `pattern<N>_steps<S>_<mode>.png`. */
  lemma PresetFileName(d: string, steps: int, mode: Mode)
    requires |d| >= 1 && forall i :: 0 <= i < |d| ==> IsDigit(d[i])
    ensures ExportFileName(false, Some("patterns/dither-pattern-" + d + ".png"), steps, mode)
         == "pattern" + d + "_steps" + IntToString(steps) + "_" + ModeName(mode) + ".png"
  {
    PresetUrlNumber(d);
  }
}
