# Image dithering: a verified model of the editor and the two dither pipelines

This project models in Dafny the three computational cores of a browser app
that dithers images against tileable threshold patterns. It proves that the
model behaves as the app promises.

- **Layer-stack pattern editor** (`Editor`, from `js/pattern-editor.js`).
  - A `PatternEditor` class holds a `layers x height x width` boolean grid and the editor options.
  - Its methods resize, toggle and drag-paint cells, clear the grid, export a threshold map and import one.
  - Importing can auto-detect the layer count.
  - A cell is *locked* on layer L when a layer below L is active there. An edit on a locked cell is refused.
  - The 0/1 encoding of the grid that a saved preset carries is modelled too.
- **Per-pixel dither of the main page** (`PixelDither`, from `js/script.js`).
  - The in-place brightness/contrast curve.
  - The ordered dither of a grid of pixels against a tiled pattern, in BW or RGB mode, with inversion and opaque alpha. It has a binary branch for two steps and a threshold-biased floor for more.
  - The downsampled grid size.
  - The name of the exported file.
- **Block-average dither engine** (`Engine`, from `js/dither-engine.js`).
  - `quantize` and the copying brightness/contrast pass with its squared factor.
  - The BW and RGB block dithers. Each averages a `pixelSize` block, quantises the average and drops one level when the block's threshold is not reached. It then writes one value to the whole block.
  - The settings merge of `updateSettings`.
- `Bytes` holds what the pipelines share:
  - `Math.round`;
  - the store rule of a `Uint8ClampedArray`: clamp to [0,255], then round half to even;
  - the RGBA layout: byte `(y w + x) 4 + c` is channel c of pixel (x, y).

The pure parts of the source are functions with lemmas: tone curves, `quantize`, the grid size and the filename rule. The parts that change state step by step stay imperative:
- The editor is a class whose methods reassign `pixels` and the option fields.
- The in-place tone pass rewrites an `array`.
- The dither passes fill a fresh `array` in the source's nested loops.

Each of these is proved against a specification function, such as `Toned`, `Dithered`, `DitherBW`, `DitherRGB`, `Loaded` or `DetectedLayers`. The properties the app promises are proved about those functions.

Arithmetic is exact:
- Bytes are integers in [0,255].
- `script.js` reads brightness, contrast and steps as integers through `parseInt`. Its tone curve and level spacing are computed in doubles, which the model takes as exact rationals (see "## Left out").
- The engine's brightness, contrast, tone factor, averages and levels are reals. The source computes `2.55 brightness`, the squared contrast factor and the rest in doubles, and the model takes them as exact (see "## Left out").
- `Math.floor(v / (255 / L))` and `Math.floor((m + 1) * (255 / L))` in the editor are the exact quotients `v L / 255` and `(m + 1) 255 / L`.

## Model

| member | source | states |
|---|---|---|
| Bytes.Round | js/script.js:140 | `Math.round(x)` is the integer r with r - 1/2 <= x < r + 1/2 |
| Bytes.ClampByte | js/dither-engine.js:103 | a store into a clamped byte array gives 0 at or below 0 and 255 at or above 255. In between it gives an integer within 1/2 of the value, and the value itself when that is an integer |
| Bytes.ClampInt | js/script.js:140 | `Math.min(255, Math.max(0, i))` on an integer: the integer itself inside [0,255], 0 below it and 255 above it |
| Bytes.OffsetDecodes | js/script.js:289 | byte `(y w + x) 4 + c` decodes back to pixel (x, y) and channel c |
| Bytes.OffsetEncodes | js/dither-engine.js:129 | every byte of a w x h RGBA buffer is `(row w + col) 4 + c` for one in-range pixel (col, row) |
| Editor.Blank | js/pattern-editor.js:40-47 | the grid `initPixels` builds has shape `layers x height x width` and every cell inactive |
| Editor.PatternEditor.constructor | js/pattern-editor.js:7-28 | a new editor has the given dimensions, current layer 0, an all-inactive grid, is not drawing, and its last cell is (-1, -1) |
| Editor.PatternEditor.InitPixels | js/pattern-editor.js:40-47 | `pixels` becomes the all-inactive grid of the current dimensions; nothing else changes |
| Editor.PatternEditor.ResizeWidth | js/pattern-editor.js:222-243 | the shape invariant holds with the new width. Every cell left of min(old, new) keeps its value and new cells are inactive. An unchanged width changes nothing, and height, layers and current layer are kept |
| Editor.PatternEditor.ResizeHeight | js/pattern-editor.js:245-265 | the same for rows: rows below min(old, new) are kept, new rows are inactive, and an unchanged height changes nothing |
| Editor.PatternEditor.ResizeLayers | js/pattern-editor.js:267-299 | layers below min(old, new) are kept unchanged and added layers are all inactive. The current layer is clamped to `newLayers - 1` when it falls out of range |
| Editor.PatternEditor.IsPixelLocked | js/pattern-editor.js:373-378 | the answer is true exactly when some layer below `upToLayer` is active at (x, y) |
| Editor.PatternEditor.TogglePixel | js/pattern-editor.js:442-453 | the new grid is `Toggled` of the old one, the shape invariant holds, and dimensions and current layer are kept |
| Editor.Toggled | js/pattern-editor.js:442-453 | the grid after `togglePixel`: the current layer's cell flips unless a lower layer is active there. Its properties are stated by `ToggleFrame` and `ToggleTwice` |
| Editor.ToggleFrame | js/pattern-editor.js:442-453 | toggling keeps the shape and changes no cell but (current layer, y, x). That cell flips exactly when no lower layer is active there, and otherwise stays |
| Editor.ToggleTwice | js/pattern-editor.js:442-453 | toggling the same cell twice restores the original grid, whether or not it is locked |
| Editor.PatternEditor.BeginDrag | js/pattern-editor.js:383-394 | a press inside the grid starts drawing, records the cell and toggles it; a press outside changes nothing |
| Editor.PatternEditor.DragTo | js/pattern-editor.js:396-416 | entering an in-grid cell applies `Dragged` from the previous cell and always records the new cell; outside the grid nothing changes |
| Editor.Dragged | js/pattern-editor.js:402-410 | the grid after one drag step: the entered cell takes the previous cell's value when they differ and the entered cell is unlocked. Its properties are stated by `DragEffect` and `PressThenDrag` |
| Editor.DragEffect | js/pattern-editor.js:402-413 | the drag step paints the previous cell's current-layer value into the entered cell unless a lower layer locks it. A locked cell leaves the grid unchanged, and no other cell ever changes |
| Editor.PressThenDrag | js/pattern-editor.js:383-413 | pressing one unlocked cell and dragging into another unlocked cell gives the second cell the value the first was toggled to |
| Editor.PatternEditor.EndDrag | js/pattern-editor.js:418-420 | releasing the button stops drawing and changes nothing else |
| Editor.HighestActive | js/pattern-editor.js:354-358 | the result is -1 or an active layer below n, and no higher layer below n is active |
| Editor.LayerThreshold | js/pattern-editor.js:360-365 | the exported value of a cell whose highest active layer is m is always a byte: `min(255, floor((m + 1) 255 / layers))`, or 0 when no layer is active |
| Editor.CellThreshold | js/pattern-editor.js:351-366 | one entry of the exported map: `LayerThreshold` of the cell's highest active layer. Its range is stated by `ThresholdRange` |
| Editor.PatternEditor.GetThresholdMap | js/pattern-editor.js:346-370 | the map is `height x width`, and each entry is `min(255, floor((m + 1) 255 / layers))` for the cell's highest active layer m, or 0 when none is |
| Editor.ThresholdRange | js/pattern-editor.js:360-365 | every exported value is in [0,255]. It is 0 exactly when no layer is active (up to 255 layers), it never decreases as the top layer rises, and the top layer exports 255 |
| Editor.TopLayerFor | js/pattern-editor.js:313-320 | the top layer an imported value selects is below the layer count; for a non-negative value it is -1 exactly when the value is 0 |
| Editor.Loaded | js/pattern-editor.js:313-326 | after an import, layer l is active at a cell exactly when l is at most the cell's top layer: -1 for value 0, otherwise `min(floor(v layers / 255), layers - 1)` |
| Editor.ActivateCell | js/pattern-editor.js:317-325 | one cell's activation loop switches on layers 0 up to the cell's top layer and nothing else |
| Editor.ActivateLayers | js/pattern-editor.js:315-327 | the activation loops, started on the cleared grid, build exactly `Loaded` |
| Editor.PatternEditor.LoadPatternFromThresholdMap | js/pattern-editor.js:302-343 | dimensions become the given ones and the layer count is the given one, or the detected one when it is `null`. The grid becomes `Loaded` and the current layer resets to 0 |
| Editor.LoadedTop | js/pattern-editor.js:313-326 | after an import, a cell's highest active layer is the top layer its value selects |
| Editor.ImportExportRoundTrip | js/pattern-editor.js:302-370 | exporting right after an import gives 0 for 0. A value v in [1,255] comes back in [v, v + 255/layers], and a value above 255 comes back as 255 |
| Editor.ReimportedThreshold | js/pattern-editor.js:321-365 | the same round-trip bound, stated for a single value |
| Editor.ReimportedInRange | js/pattern-editor.js:321-365 | the in-range case of the round trip: v <= t and t layers <= v layers + 255 |
| Editor.ExportImportShiftsLayer | js/pattern-editor.js:313-365 | the other direction is not the identity: with 3 layers, a cell active on layer 0 only exports 85, and 85 re-imports onto layers 0 and 1 |
| Editor.FlatMembers | js/pattern-editor.js:642 | `map.flat()` holds exactly the map's values |
| Editor.InsertSorted | js/pattern-editor.js:643 | adding a value to a strictly increasing listing keeps it strictly increasing and adds exactly that value |
| Editor.UniqueSortedMembers | js/pattern-editor.js:642-643 | the sorted distinct listing holds exactly the positive values, each once, in increasing order |
| Editor.IncreasingUnique | js/pattern-editor.js:642-643 | two strictly increasing sequences with the same elements are equal, so the listing is the one `Set` + `filter` + `sort` produces |
| Editor.DistinctPositive | js/pattern-editor.js:642-643 | the collection loop returns the sorted distinct positive values of the map |
| Editor.GapCount | js/pattern-editor.js:649-654 | the number of gaps wider than 8 among n listed values is between 0 and n - 1 |
| Editor.CountLayers | js/pattern-editor.js:649-654 | the counting loop returns 1 plus the number of gaps wider than 8 |
| Editor.DetectedLayers | js/pattern-editor.js:640-657 | the count layer detection returns always lies in [2,32] |
| Editor.PatternEditor.DetectLayersFromThresholdMap | js/pattern-editor.js:640-657 | the result is `DetectedLayers`: 2 for a map without positive values, otherwise 1 plus the number of wide gaps, clamped to [2,32] |
| Editor.DetectedLayersRange | js/pattern-editor.js:645-656 | a detected count lies in [2,32] and is at most max(2, number of distinct positive values) |
| Editor.EncodeLayerData | js/pattern-editor.js:588-592 | the saved layer data has the grid's shape, holds only 0 and 1, and holds 1 exactly at the active cells |
| Editor.DecodeLayerData | js/pattern-editor.js:588-592 | reading saved data back (nonzero = active) keeps its shape and activates exactly the nonzero entries |
| Editor.LayerDataRoundTrip | js/pattern-editor.js:588-592 | decoding the saved layer data restores exactly the grid it was saved from |
| Editor.PatternEditor.Clear | js/pattern-editor.js:617-621 | `clear()` makes every cell inactive and keeps the dimensions and current layer |
| Editor.PatternEditor.ClearAll | js/pattern-editor.js:624-638 | when confirmed every cell becomes inactive, otherwise the grid is unchanged; the dimensions and current layer are kept either way |
| PixelDither.ToneCurve | js/script.js:132-140 | the curve of one colour byte; at contrast 100 it is a pure brightness shift, clamped to [0,255] |
| PixelDither.ToneCurveNeutral | js/script.js:132-140 | brightness 0 and contrast 100 leave every byte unchanged |
| PixelDither.ToneCurveMonotone | js/script.js:137-140 | with a non-negative contrast the curve never reverses the order of two bytes |
| PixelDither.ToneCurveFlat | js/script.js:137-140 | contrast 0 sends every byte to the single grey `clamp(128 + brightness)` |
| PixelDither.Toned | js/script.js:135-143 | the pass keeps the buffer's length and never changes an alpha byte |
| PixelDither.TonedNeutral | js/script.js:130-145 | with the neutral settings the whole buffer is unchanged, so skipping the pass for them changes nothing |
| PixelDither.ApplyBrightnessContrast | js/script.js:130-145 | the buffer is rewritten in place into `Toned` of its old contents: colour bytes go through the curve, alpha bytes stay |
| PixelDither.GridSize | js/script.js:344-345 | `ceil(W / pixelSize)` is the n with (n - 1) pixelSize < W <= n pixelSize |
| PixelDither.GridCovers | js/script.js:344-345 | every source column falls in a grid cell |
| PixelDither.Gray | js/script.js:300 | the rounded weighted grey of a pixel lies between its smallest and largest channel |
| PixelDither.LevelValue | js/script.js:284-306 | level k of `steps` is `Math.round(k * interval)` with `interval = 255 / (steps - 1)`, as at lines 306 and 319. What makes it a level scale (increasing, from 0 to 255, always a byte) is stated by `LevelValueMonotone`, `LevelValueEnds` and `LevelValueRange` |
| PixelDither.LevelValueMonotone | js/script.js:306 | a higher level index never gives a lower output level |
| PixelDither.LevelValueEnds | js/script.js:285-306 | level 0 is 0 and level steps-1 is 255 |
| PixelDither.LevelValueRange | js/script.js:285-306 | every level index in [0, steps-1] gives a byte |
| PixelDither.Quantize | js/script.js:302-319 | one channel before inversion: the binary test for two steps, otherwise the threshold-biased level capped at 255. Its properties are stated by `QuantizeIsLevel` through `ThresholdDirection` |
| PixelDither.QuantizeIsLevel | js/script.js:302-306 | every quantised channel equals the output level of an index in [0, steps-1] |
| PixelDither.QuantizeAtMostSteps | js/script.js:302-319 | a quantised channel takes one of at most `steps` values |
| PixelDither.QuantizeWhite | js/script.js:302-306 | white stays white for every threshold and step count |
| PixelDither.QuantizeBlack | js/script.js:302-306 | with two steps black stays black exactly when the threshold is positive. With more steps it stays black for every threshold below 255 |
| PixelDither.QuantizeMonotone | js/script.js:302-306 | a brighter input never gives a darker output |
| PixelDither.ThresholdDirection | js/script.js:302-306 | with two steps a larger threshold can only darken a channel; with more steps it can only brighten it |
| PixelDither.Shade | js/script.js:302-321 | one output channel: the quantised value, or 255 minus it when inverting. `InvertAndGray` states the inversion |
| PixelDither.PatternOffset | js/script.js:290-293 | the threshold offset `((y mod pH) pW + (x mod pW)) 4` is the R byte of an in-range pattern pixel |
| PixelDither.PixelOut | js/script.js:289-324 | channel c of output pixel (x, y): the shaded grey in BW mode, the shaded channel in RGB mode, and 255 for alpha. `DitheredAt`, `AlphaOpaque` and `BinaryThreshold` state its properties |
| PixelDither.Dithered | js/script.js:276-329 | the whole output buffer of the pass has the input's length. `DitheredAt` and `OutputLevels` state its contents |
| PixelDither.DitherPixel | js/script.js:289-324 | the four bytes of pixel (x, y) get the quantised channels (one grey value three times in BW mode) and opaque alpha; no other byte changes |
| PixelDither.DitherImage | js/script.js:276-329 | a fresh buffer equal to `Dithered`, the byte-by-byte output of the pass |
| PixelDither.DitheredAt | js/script.js:287-324 | byte `(y w + x) 4 + c` of the output is channel c of output pixel (x, y) |
| PixelDither.AlphaOpaque | js/script.js:310-324 | every alpha byte of the output is 255 |
| PixelDither.BinaryThreshold | js/script.js:290-316 | with two steps a colour byte is 0 when the channel (the grey in BW mode) is below the pixel's tiled threshold, and 255 otherwise |
| PixelDither.InvertAndGray | js/script.js:298-321 | inversion maps each colour byte to 255 minus its non-inverted value, and in BW mode R, G and B of a pixel agree |
| PixelDither.OutputLevels | js/script.js:302-319 | every non-inverted colour byte of the output is one of the `steps` levels |
| PixelDither.FirstMatch | js/script.js:440 | the leftmost offset at which `dither-pattern-\d` matches, or none when it matches nowhere |
| PixelDither.DigitRun | js/script.js:440 | the greedy `\d+`: a run of digits in the string that ends at the end or before a non-digit |
| PixelDither.PresetNumber | js/script.js:440-441 | a captured number is a non-empty digit string |
| PixelDither.NatToString | js/script.js:446 | the printed step count is a non-empty digit string |
| PixelDither.NatToStringValue | js/script.js:446 | the printed digits read back as the number |
| PixelDither.IntToString | js/script.js:446 | `${steps}` in the file name is never empty, starts with a minus sign exactly for a negative step count, and is digits after that |
| PixelDither.ModeName | js/script.js:445 | the lower-cased mode, `bw` or `rgb` |
| PixelDither.PatternName | js/script.js:439-443 | the pattern part of the name: `pattern<N>` for a URL with a match, otherwise `custom`. `CustomFileName` and `PresetFileName` state both cases |
| PixelDither.ExportFileName | js/script.js:438-446 | the exported name always ends in `.png` |
| PixelDither.NoMatchNoNumber | js/script.js:440-441 | a URL without a match carries no number |
| PixelDither.CustomFileName | js/script.js:438-446 | a custom pattern, a missing URL or a URL without a match all export as `custom_steps<S>_<mode>.png` |
| PixelDither.FirstMatchAt | js/script.js:440 | a match at m with none before it makes m the first match |
| PixelDither.DigitRunOfDigits | js/script.js:440 | the greedy run after a marker captures exactly the digits that follow it |
| PixelDither.PresetUrlNumber | js/script.js:440-441 | the URL `patterns/dither-pattern-<N>.png` of a shipped preset captures N |
| PixelDither.PresetFileName | js/script.js:438-446 | a shipped preset exports as `pattern<N>_steps<S>_<mode>.png` |
| Engine.Step | js/dither-engine.js:15 | the level distance `255 / (steps - 1)`, also written out at lines 141 and 190-192, is positive, at most 255, and `steps - 1` of it make exactly 255. `ShadeDropsOneLevel` states that subtracting it moves a value down one level |
| Engine.Quantize | js/dither-engine.js:13-17 | `quantize(value, steps)`. Its properties are stated by `QuantizeLevel` and `QuantizeDegenerate` |
| Engine.QuantizeLevel | js/dither-engine.js:13-17 | for a value in [0,255], `quantize` is `round(v / s) s` with s = 255/(steps-1). That is a level k in [0, steps-1], it lies in [0,255], and it is within s/2 of the value |
| Engine.QuantizeDegenerate | js/dither-engine.js:14 | at most one step quantises every value to 0 |
| Engine.Tone | js/dither-engine.js:92-102 | the engine's curve before the store; at contrast 0 the squared factor is 1 and the curve adds `2.55 brightness` |
| Engine.Toned | js/dither-engine.js:97-106 | the copy has the input's length and each alpha byte equals the input's |
| Engine.TonedNeutral | js/dither-engine.js:92-103 | brightness 0 and contrast 0 give factor 1 and return the input's bytes |
| Engine.ToneMonotone | js/dither-engine.js:92-103 | the squared factor is never negative, so the stored curve never reverses the order of two bytes |
| Engine.ToneFlat | js/dither-engine.js:92-102 | contrast -100 gives factor 0: every colour byte becomes `128 + 2.55 brightness` before the store |
| Engine.ThresholdAt | js/dither-engine.js:138-140 | a threshold read from the pattern is one of the matrix's values. A pattern matrix holding at least size x size entries always yields one |
| Engine.ThresholdTiles | js/dither-engine.js:138-140 | for a square pattern, block (bcol, brow) reads `matrix[(brow mod size) size + (bcol mod size)]`, and moving a whole pattern width gives the same threshold |
| Engine.Passes | js/dither-engine.js:141 | `value >= threshold`, as at lines 190-192 too, which is false when the pattern entry is `undefined`. `Shade` states that a positive level is kept exactly when this test passes |
| Engine.Shade | js/dither-engine.js:141 | the threshold test never brightens a non-negative level and never makes it negative. A positive level is kept exactly when the compared value reaches the threshold |
| Engine.ShadeDropsOneLevel | js/dither-engine.js:141 | failing the threshold test turns level k into level max(0, k - 1) |
| Engine.ShadeQuantized | js/dither-engine.js:136-141 | a quantised value after the test is level k of the value or the level below it, and stays in [0,255] |
| Engine.BlockAt | js/dither-engine.js:118-121 | a pixel's block starts at the multiples of pixelSize below it, is clipped to the image, and contains the pixel |
| Engine.BlockOfPixel | js/dither-engine.js:118-121 | every pixel lies in exactly one block: any block origin within pixelSize above it is the one `BlockAt` finds |
| Engine.GrayMean | js/dither-engine.js:123-135 | the block average of `(r + g + b) / 3` lies in [0,255] |
| Engine.ChannelMean | js/dither-engine.js:169-182 | each channel's block average lies in [0,255] |
| Engine.BWValue | js/dither-engine.js:135-141 | the BW value of a block: the quantised mean grey after the threshold test. Its level and range are stated by `BWValueLevel` |
| Engine.RGBValue | js/dither-engine.js:182-192 | the RGB value of one channel of a block: the quantised channel mean after the test. Its level and range are stated by `RGBValueLevel` |
| Engine.BWValueLevel | js/dither-engine.js:123-141 | a BW block value is level k of the block mean, or max(0, k - 1) when the mean is below the threshold, and lies in [0,255] |
| Engine.RGBValueLevel | js/dither-engine.js:169-192 | the same per channel, except that the quantised level, not the mean, is compared with the threshold |
| Engine.DitherBW | js/dither-engine.js:111-155 | the output of `applyDitherBW` has the input's length, and every alpha byte is copied from the input |
| Engine.DitherRGB | js/dither-engine.js:157-208 | the output of `applyDitherRGB` has the input's length, and every alpha byte is copied from the input |
| Engine.BlockUniform | js/dither-engine.js:144-149 | two pixels of one block get the same colour bytes, and in BW mode R, G and B agree |
| Engine.BlockPixel | js/dither-engine.js:118-149 | a colour byte of block (bcol, brow) carries that block's stored BW or RGB value |
| Engine.RowGraySum | js/dither-engine.js:128-132 | the inner averaging loop adds `(r + g + b) / 3` over one row segment and counts its pixels |
| Engine.GraySum | js/dither-engine.js:123-135 | the BW averaging loops return a count of `blockW blockH` and a sum whose quotient is `GrayMean` |
| Engine.RowChannelSums | js/dither-engine.js:173-178 | the inner RGB loop sums each channel over one row segment |
| Engine.ChannelSums | js/dither-engine.js:169-182 | the RGB averaging loops return per-channel sums whose quotients are the channel means |
| Engine.FillRow | js/dither-engine.js:145-149 | one row of the fill loop writes the three values and copies alpha in that row segment, and nothing else |
| Engine.FillBlock | js/dither-engine.js:144-150 | the fill loops write exactly the block's bytes, three colour values and the source alpha |
| Engine.BlockValueBW | js/dither-engine.js:123-141 | the BW block value, stored, is `ClampByte` of `BWValue` |
| Engine.BlockValuesRGB | js/dither-engine.js:169-192 | the three RGB block values, stored, are `ClampByte` of `RGBValue` per channel |
| Engine.BlockPaintBW | js/dither-engine.js:144-149 | filling a BW block with its stored value writes exactly the pass's output there |
| Engine.BlockPaintRGB | js/dither-engine.js:195-202 | filling an RGB block with its stored values writes exactly the pass's output there |
| Engine.BlockBW | js/dither-engine.js:119-151 | one BW block iteration writes `DitherBW` on the block's bytes and leaves every other byte as it was |
| Engine.BlockRGB | js/dither-engine.js:165-204 | one RGB block iteration writes `DitherRGB` on the block's bytes and leaves every other byte as it was |
| Engine.Merge | js/dither-engine.js:307 | the merged settings have the keys of both maps; supplied keys take their new values, all others keep their own |
| Engine.MergeSequential | js/dither-engine.js:306-307 | two updates in a row equal one update with their merge, and repeating an update changes nothing |
| Engine.DefaultSettings | js/dither-engine.js:50-58 | a new engine's settings have exactly the seven default keys |
| Engine.DitherEngine.constructor | js/dither-engine.js:50-58 | a new engine starts with the default settings |
| Engine.DitherEngine.UpdateSettings | js/dither-engine.js:306-309 | the settings become the merge of the old settings with the update |
| Engine.DitherEngine.ApplyBrightnessContrast | js/dither-engine.js:91-109 | a fresh buffer equal to `Toned` of the input, whose contents are only read |
| Engine.DitherEngine.ApplyDitherBW | js/dither-engine.js:111-155 | a fresh buffer equal to `DitherBW` of the input, whose contents are only read |
| Engine.DitherEngine.ApplyDitherRGB | js/dither-engine.js:157-208 | a fresh buffer equal to `DitherRGB` of the input, whose contents are only read |

## Left out

- Everything in `js/app.js`. It is DOM lookups, event wiring and sample-image loading.
- Editor DOM and drawing:
  - `createDOM`, `createInputGroup` and `createLayerControl`;
  - `render`, `renderGrid` and `renderPreview`;
  - `downloadPattern`, and the updates of the layer slider's `max` and `value` in `resizeLayers` and the loader.
- `getGridCoords`. It maps mouse positions with floating-point canvas geometry. The model's `BeginDrag` and `DragTo` take the cell coordinates it would produce.
- `triggerChange`. It is an outgoing notification. Its callback receives the output of `GetThresholdMap`.
- The thumbnail, `localStorage`, `CustomEvent` and `alert` parts of `addToPresets`. Only the 0/1 layer encoding is modelled. The files modelled here never read the saved data back (another part of the app listens for the `pattern-added` event), so `DecodeLayerData` is a reference inverse that states the encoding loses nothing.
- Editor.PatternEditor.constructor: the source lets the options object override `currentLayer` as well as the dimensions. The model always starts at layer 0, which is what the only construction in `initPatternEditor` does, since it passes no `currentLayer`.
- Editor.PatternEditor.ResizeWidth, Editor.PatternEditor.ResizeHeight, Editor.PatternEditor.ResizeLayers and Editor.PatternEditor.Valid: the model requires width and height of at least 0 and at least one layer, and `Valid` ties the grid's shape to those fields. The inputs offer 1..16 for width and height and 2..32 for layers, but their `change` handler passes `parseInt` of whatever was typed, unchecked. So the source also accepts values the model excludes, with these results:
  - A negative width or height cuts that many cells or rows off the end through `slice(0, n)`, yet records the negative number.
  - `NaN` from an empty field empties every row or layer and records `NaN`.
  - Zero layers leave `pixels` empty and set the current layer to -1. A negative count cuts layers off the top and sets the current layer below -1.
  - The layer slider's handler `updateLayer` stores a typed current layer with no clamp. It is part of the layer control's DOM code and is not modelled.
- The `confirm` dialog of `clearAll`. It becomes the `confirmed` parameter.
- The `mousemove` handler's `isDrawing` test. `DragTo` models the step after that test has passed.
- Canvas resampling: `imageToImageData`, `scaleCanvasNearest`, the downsample/upscale `drawImage` calls in `processImage`, and `DitherEngine.processImage` and `saveImage`. Browser smoothing and scaling are not part of the source.
- Asynchronous loading and decoding of images and patterns. This covers `loadPatternFromFile`, `loadPatternFromUrl`, `loadImage`, the engine's `loadPattern` with its `patternCache` and fallback, and `loadImageFromFile`. A loaded pattern is a parameter here: bytes for the main page, a `Pattern` (matrix and size) for the engine.
- The `processing` re-entrancy flag, `debounce` and `setTimeout`. Their point is scheduling.
- `updateSettings`' call to `processImage`. Only the merge is modelled.
- PixelDither.ApplyBrightnessContrast: `contrast / 100` and `(v - 128) * factor + 128 + brightness` are computed in doubles, and the model's curve uses exact rationals. Where the exact value sits on a rounding boundary, the double can fall just below it. For example, contrast 110, v = 13 and brightness 0 give 1.4999999999999858, which rounds to 1 where the model gives 2. So the stored byte can be one lower than the model's, never higher. Among contrasts 0..200 with brightness -100..100 this happens at contrasts 110, 135 and 162. Contrast 100 and contrast 0 are exact in doubles too.
- PixelDither.ToneCurve: the same ±1 drift at rounding boundaries.
- PixelDither.Quantize: the level spacing `255 / levels` is a double. From 50 levels on, `Math.round(k * (255 / levels))` can be one lower than the exact `round(k 255 / levels)`, such as 127 instead of 128 at k = 25 of 50 levels.
- Gray: the weights 0.299, 0.587 and 0.114 are exact rationals. IEEE-754 drift at rounding boundaries is not modelled.
- The editor's `255 / layers` is an exact quotient. IEEE-754 error in it is not modelled.
- Editor.ThresholdRange: in doubles, `layers * (255 / layers)` floors to 254 at 25 and 29 layers, so there the source exports 254 for the top layer, not 255.
- Editor.PatternEditor.GetThresholdMap: for the same reason, at 25 and 29 layers a cell whose top layer is the highest one exports 254 where the contract gives 255.
- Editor.ImportExportRoundTrip: at 25 and 29 layers the source re-exports an imported 255, or any value above 255, as 254, so `v <= t` fails there. At the other layer counts from 2 to 32 the floored double products agree with the exact ones, and the imported top layer agrees at every layer count from 2 to 32. The floored quotient `Math.floor(v / (255 / L))` itself can differ, for example 12 instead of 13 for v = 255 at 13 layers, but the cap at `layers - 1` absorbs the difference.
- Editor.ReimportedThreshold: the same exception at 25 and 29 layers for values of 255 and above.
- The engine's reals are exact, so floating-point error in `255 / (steps - 1)`, in the running sums and in the averages is not modelled.
- Dither inputs need `steps` to be an integer of at least 2. With fewer steps both passes divide by zero, and a non-integer `steps` (the engine's default 2.3) has no meaningful levels. `Engine.QuantizeDegenerate` still covers `quantize`'s own `steps <= 1` branch.
- Engine.DitherEngine.ApplyDitherBW and Engine.DitherEngine.ApplyDitherRGB: `pixelSize` is an integer of at least 1. The block size `processImage` passes is `pixelSize * quality`, whose factors the app reads with `parseInt`. A zero, negative or fractional block size, which only a direct call could pass, is not modelled: it would stall the loops or make `y / pixelSize` a non-integer pattern index.
- PixelDither.ModeName: the mode is `BW` or `RGB`. `BW` is the default, and other values come from the mode radio buttons, whose markup is not part of this model, so `RGB` as their other value is an assumption.
- PixelDither.ExportFileName: the step count is an integer. A fractional `steps` would print with a decimal point, which is not modelled.
- Engine.DitherEngine.ApplyBrightnessContrast: the buffer length is a multiple of 4, as an `ImageData` buffer always is. Other lengths are not modelled.
- Engine.DitherEngine.ApplyBrightnessContrast: `brightness * 2.55`, the factor `c * c` and the curve are doubles in the source, and `Toned` uses exact rationals before the round-half-to-even store. Where the exact value sits on or next to a rounding boundary, the stored byte can be one higher or one lower than the model's. Over integer brightness and contrast in -100..100 this affects 1,820 (brightness, contrast, byte) triples: 1,292 one higher and 528 one lower. For example, brightness 50, contrast 0 and v = 0 give 127.49999999999999 and store 127, where the model stores 128.
- Engine.Toned: the same ±1 drift of the stored byte at rounding boundaries.
- PixelDither.FirstMatch: the regular expression is matched by direct search for its single shape `dither-pattern-\d+`, not by a general regex engine.
