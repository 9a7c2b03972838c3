/** The layer-stack pattern editor: a `layers x height x width` boolean grid
    from which a tileable threshold map is exported, and into which a
    threshold map can be imported. A cell's threshold is decided by the
    highest layer active at it; an edit on layer L is refused at a cell where
    a layer below L is active ("locked"). */
module Editor {
  import opened Bytes

  /** pixels[layer][row][column] */
  type Grid = seq<seq<seq<bool>>>

  // ---------------------------------------------------------------------
  // Shape of the grid
  // ---------------------------------------------------------------------

  ghost predicate Shaped(p: Grid, layers: int, height: int, width: int) {
    && |p| == layers
    && (forall l :: 0 <= l < layers ==> |p[l]| == height)
    && (forall l, y :: 0 <= l < layers && 0 <= y < height ==> |p[l][y]| == width)
  }

  /** Every layer of the grid has a cell at column x of row y. */
  ghost predicate HasCell(p: Grid, x: int, y: int) {
    0 <= x && 0 <= y && forall l :: 0 <= l < |p| ==> y < |p[l]| && x < |p[l][y]|
  }

  function Row(width: nat): (r: seq<bool>)
    ensures |r| == width && forall x :: 0 <= x < width ==> !r[x]
  {
    seq(width, _ => false)
  }

  function Plane(height: nat, width: nat): (r: seq<seq<bool>>)
    ensures |r| == height && forall y :: 0 <= y < height ==> r[y] == Row(width)
  {
    seq(height, _ => Row(width))
  }

  /** The grid `initPixels` builds: every cell of every layer inactive. */
  function Blank(layers: nat, height: nat, width: nat): (p: Grid)
    ensures Shaped(p, layers, height, width)
    ensures forall l, y, x :: 0 <= l < layers && 0 <= y < height && 0 <= x < width ==> !p[l][y][x]
  {
    seq(layers, _ => Plane(height, width))
  }

  /** The grid with exactly one cell replaced. */
  function Set3(p: Grid, l: int, y: int, x: int, v: bool): (q: Grid)
    requires 0 <= l < |p| && 0 <= y < |p[l]| && 0 <= x < |p[l][y]|
    ensures |q| == |p|
    ensures forall k :: 0 <= k < |p| ==> |q[k]| == |p[k]|
    ensures forall k, j :: 0 <= k < |p| && 0 <= j < |p[k]| ==> |q[k][j]| == |p[k][j]|
    ensures q[l][y][x] == v
    ensures forall k, j, i :: 0 <= k < |p| && 0 <= j < |p[k]| && 0 <= i < |p[k][j]| && (k, j, i) != (l, y, x)
              ==> q[k][j][i] == p[k][j][i]
  {
    p[l := p[l][y := p[l][y][x := v]]]
  }

  // ---------------------------------------------------------------------
  // Locking, toggling and drag-painting
  // ---------------------------------------------------------------------

  /** Some layer strictly below `upTo` is active at (x, y). */
  ghost predicate Locked(p: Grid, x: int, y: int, upTo: int)
    requires upTo <= |p| && HasCell(p, x, y)
  {
    exists l :: 0 <= l < upTo && p[l][y][x]
  }

  /** The grid after `togglePixel(x, y)` on layer `cur`. */
  ghost function Toggled(p: Grid, cur: int, x: int, y: int): (q: Grid)
    requires 0 <= cur < |p| && HasCell(p, x, y)
  {
    if Locked(p, x, y, cur) then p else Set3(p, cur, y, x, !p[cur][y][x])
  }

  /** The grid after the drag step from (fromX, fromY) into (x, y) on layer `cur`. */
  ghost function Dragged(p: Grid, cur: int, fromX: int, fromY: int, x: int, y: int): (q: Grid)
    requires 0 <= cur < |p| && HasCell(p, x, y) && HasCell(p, fromX, fromY)
  {
    if (x, y) != (fromX, fromY) && p[cur][y][x] != p[cur][fromY][fromX] && !Locked(p, x, y, cur)
    then Set3(p, cur, y, x, p[cur][fromY][fromX])
    else p
  }

  /** Toggling changes at most the one cell of the current layer, and
      changes it exactly when no lower layer is active there. */
  lemma ToggleFrame(p: Grid, cur: int, x: int, y: int)
    requires 0 <= cur < |p| && HasCell(p, x, y)
    ensures var q := Toggled(p, cur, x, y);
      && |q| == |p|
      && (forall l :: 0 <= l < |p| ==> |q[l]| == |p[l]|)
      && (forall l, j :: 0 <= l < |p| && 0 <= j < |p[l]| ==> |q[l][j]| == |p[l][j]|)
      && (q[cur][y][x] <==> (if Locked(p, x, y, cur) then p[cur][y][x] else !p[cur][y][x]))
      && (forall l, j, i :: 0 <= l < |p| && 0 <= j < |p[l]| && 0 <= i < |p[l][j]| && (l, j, i) != (cur, y, x)
            ==> q[l][j][i] == p[l][j][i])
  {
  }

  /** Toggling twice restores the grid: the first toggle only touches layer
      `cur`, so it cannot change whether the cell is locked. */
  lemma {:induction false} ToggleTwice(p: Grid, cur: int, x: int, y: int)
    requires 0 <= cur < |p| && HasCell(p, x, y)
    ensures HasCell(Toggled(p, cur, x, y), x, y)
    ensures Toggled(Toggled(p, cur, x, y), cur, x, y) == p
  {
    var q := Toggled(p, cur, x, y);
    if !Locked(p, x, y, cur) {
      assert HasCell(q, x, y);
      assert !Locked(q, x, y, cur) by {
        forall l | 0 <= l < cur ensures !q[l][y][x] {
          assert !p[l][y][x];
        }
      }
      var r := Set3(q, cur, y, x, !q[cur][y][x]);
      assert |r| == |p|;
      forall l | 0 <= l < |p| ensures r[l] == p[l] {
        assert |r[l]| == |p[l]|;
        forall j | 0 <= j < |p[l]| ensures r[l][j] == p[l][j] {
          assert |r[l][j]| == |p[l][j]|;
        }
      }
    }
  }

  /** The drag step paints the entered cell with the previous cell's value
      unless a lower layer locks it, and touches no other cell. */
  lemma DragEffect(p: Grid, cur: int, fromX: int, fromY: int, x: int, y: int)
    requires 0 <= cur < |p| && HasCell(p, x, y) && HasCell(p, fromX, fromY)
    ensures var q := Dragged(p, cur, fromX, fromY, x, y);
      && (!Locked(p, x, y, cur) ==> q[cur][y][x] == p[cur][fromY][fromX])
      && (Locked(p, x, y, cur) ==> q == p)
      && |q| == |p|
      && (forall l, j, i :: 0 <= l < |p| && 0 <= j < |p[l]| && 0 <= i < |p[l][j]| && (l, j, i) != (cur, y, x)
            ==> q[l][j][i] == p[l][j][i])
  {
  }

  /** Press-and-drag: the state the pressed cell toggled to is painted into
      the next cell entered, when neither cell is locked. */
  lemma {:induction false} PressThenDrag(p: Grid, cur: int, x0: int, y0: int, x1: int, y1: int)
    requires 0 <= cur < |p| && HasCell(p, x0, y0) && HasCell(p, x1, y1)
    requires (x0, y0) != (x1, y1)
    requires !Locked(p, x0, y0, cur) && !Locked(p, x1, y1, cur)
    ensures var t := Toggled(p, cur, x0, y0);
      HasCell(t, x0, y0) && HasCell(t, x1, y1) && Dragged(t, cur, x0, y0, x1, y1)[cur][y1][x1] == !p[cur][y0][x0]
  {
    var t := Toggled(p, cur, x0, y0);
    assert t == Set3(p, cur, y0, x0, !p[cur][y0][x0]);
    assert HasCell(t, x1, y1);
    assert !Locked(t, x1, y1, cur) by {
      forall l | 0 <= l < cur ensures !t[l][y1][x1] {
        assert !p[l][y1][x1];
      }
    }
  }

  // ---------------------------------------------------------------------
  // Export: the threshold map
  // ---------------------------------------------------------------------

  /** The highest layer below `n` active at (x, y), or -1 when none is. */
  function HighestActive(p: Grid, n: int, x: int, y: int): (m: int)
    requires 0 <= n <= |p| && HasCell(p, x, y)
    ensures -1 <= m < n
    ensures m >= 0 ==> p[m][y][x]
    ensures forall l :: m < l < n ==> !p[l][y][x]
    decreases n
  {
    if n == 0 then -1
    else if p[n - 1][y][x] then n - 1
    else HighestActive(p, n - 1, x, y)
  }

  /** Threshold of a cell whose highest active layer is m (-1: none):
      `min(255, floor((m + 1) * (255 / layers)))`, or 0. */
  function LayerThreshold(m: int, layers: int): (t: int)
    requires layers >= 1
    ensures 0 <= t <= 255
  {
    if m >= 0 then Min(255, (m + 1) * 255 / layers) else 0
  }

  function CellThreshold(p: Grid, layers: int, x: int, y: int): int
    requires 1 <= layers <= |p| && HasCell(p, x, y)
  {
    LayerThreshold(HighestActive(p, layers, x, y), layers)
  }

  /** Every exported threshold is a byte; a cell maps to 0 exactly when no
      layer is active there (given at most 255 layers), and a higher top
      layer never gives a lower threshold. */
  lemma {:induction false} ThresholdRange(m: int, m2: int, layers: int)
    requires 1 <= layers <= 255 && -1 <= m <= m2 < layers
    ensures 0 <= LayerThreshold(m, layers) <= 255
    ensures LayerThreshold(m, layers) == 0 <==> m == -1
    ensures LayerThreshold(m, layers) <= LayerThreshold(m2, layers)
    ensures LayerThreshold(layers - 1, layers) == 255
  {
    if m >= 0 {
      LayerQuotientPositive(m, layers);
      LayerQuotientMonotone(m, m2, layers);
    }
    DivLower(layers * 255, layers, 255);
    DivLower(layers * 255, layers, 256);
  }

  lemma {:induction false} LayerQuotientPositive(m: int, layers: int)
    requires 0 <= m && 1 <= layers <= 255
    ensures (m + 1) * 255 / layers >= 1
  {
    MulMonotone(1, m + 1, 255);
    DivLower((m + 1) * 255, layers, 1);
  }

  lemma {:induction false} LayerQuotientMonotone(m: int, m2: int, layers: int)
    requires 0 <= m <= m2 && 1 <= layers
    ensures (m + 1) * 255 / layers <= (m2 + 1) * 255 / layers
  {
    MulMonotone(m + 1, m2 + 1, 255);
    DivMonotone((m + 1) * 255, (m2 + 1) * 255, layers);
  }

  // ---------------------------------------------------------------------
  // Import: decomposing a threshold map into layers
  // ---------------------------------------------------------------------

  /** The highest layer activated for threshold value v among `layers`:
      `min(floor(v / (255 / layers)), layers - 1)`, and -1 for 0. */
  function TopLayerFor(v: int, layers: int): (top: int)
    requires layers >= 1
    ensures top < layers
    ensures v >= 0 ==> (top == -1 <==> v == 0)
  {
    assert v > 0 ==> v * layers >= 0 by {
      if v > 0 { MulMonotone(0, v, layers); }
    }
    if v == 0 then -1 else Min(v * layers / 255, layers - 1)
  }

  ghost predicate Covers(tmap: seq<seq<int>>, width: int, height: int) {
    0 <= height <= |tmap| && forall y :: 0 <= y < height ==> width <= |tmap[y]|
  }

  /** The grid `loadPatternFromThresholdMap` builds. */
  ghost function Loaded(tmap: seq<seq<int>>, width: nat, height: nat, layers: int): (p: Grid)
    requires layers >= 1 && Covers(tmap, width, height)
    ensures Shaped(p, layers, height, width)
    ensures forall l, y, x :: 0 <= l < layers && 0 <= y < height && 0 <= x < width ==>
              (p[l][y][x] <==> l <= TopLayerFor(tmap[y][x], layers))
  {
    seq(layers, l => seq(height, y requires 0 <= y < height => seq(width, x requires 0 <= x < width =>
      l <= TopLayerFor(tmap[y][x], layers))))
  }

  /** Two grids of the same shape with the same cells are equal. */
  lemma {:induction false} SameCells(p: Grid, q: Grid, layers: int, height: int, width: int)
    requires Shaped(p, layers, height, width) && Shaped(q, layers, height, width)
    requires forall l, y, x :: 0 <= l < layers && 0 <= y < height && 0 <= x < width ==> p[l][y][x] == q[l][y][x]
    ensures p == q
  {
    forall l | 0 <= l < layers ensures p[l] == q[l] {
      forall y | 0 <= y < height ensures p[l][y] == q[l][y] {
      }
    }
  }

  /** The top layer each cell of the map selects. */
  function TopLayers(tmap: seq<seq<int>>, width: nat, height: nat, layers: int): (tops: seq<seq<int>>)
    requires layers >= 1 && Covers(tmap, width, height)
    ensures |tops| == height && forall j :: 0 <= j < height ==> |tops[j]| == width
  {
    seq(height, j requires 0 <= j < height => seq(width, i requires 0 <= i < width => TopLayerFor(tmap[j][i], layers)))
  }

  /** The grid part-way through an import, given each cell's top layer:
      the cells before (x, y) in row order are loaded, and at (x, y) itself
      the layers below `l`. */
  ghost function Painted(tops: seq<seq<int>>, width: nat, height: nat, layers: nat, y: int, x: int, l: int): (p: Grid)
    requires Covers(tops, width, height)
    ensures Shaped(p, layers, height, width)
  {
    seq(layers, k => seq(height, j requires 0 <= j < height => seq(width, i requires 0 <= i < width =>
      ((j < y || (j == y && i < x)) && k <= tops[j][i]) || (j == y && i == x && k < l))))
  }

  lemma PaintedCells(tops: seq<seq<int>>, width: nat, height: nat, layers: nat, y: int, x: int, l: int)
    requires Covers(tops, width, height)
    ensures var p := Painted(tops, width, height, layers, y, x, l);
      && Shaped(p, layers, height, width)
      && forall k, j, i :: 0 <= k < layers && 0 <= j < height && 0 <= i < width ==>
           (p[k][j][i] <==> ((j < y || (j == y && i < x)) && k <= tops[j][i]) || (j == y && i == x && k < l))
  {
  }

  /** One cell of a part-way grid. */
  lemma PaintedCell(tops: seq<seq<int>>, width: nat, height: nat, layers: nat, y: int, x: int, l: int,
                    k: int, j: int, i: int)
    requires Covers(tops, width, height)
    requires 0 <= k < layers && 0 <= j < height && 0 <= i < width
    ensures Painted(tops, width, height, layers, y, x, l)[k][j][i]
            <==> ((j < y || (j == y && i < x)) && k <= tops[j][i]) || (j == y && i == x && k < l)
  {
  }

  lemma PaintedStart(tops: seq<seq<int>>, width: nat, height: nat, layers: nat)
    requires Covers(tops, width, height)
    ensures Blank(layers, height, width) == Painted(tops, width, height, layers, 0, 0, 0)
  {
    PaintedCells(tops, width, height, layers, 0, 0, 0);
    SameCells(Blank(layers, height, width), Painted(tops, width, height, layers, 0, 0, 0), layers, height, width);
  }

  lemma PaintStep(tops: seq<seq<int>>, width: nat, height: nat, layers: nat, y: int, x: int, l: int)
    requires Covers(tops, width, height)
    requires 0 <= y < height && 0 <= x < width && 0 <= l < layers
    ensures Set3(Painted(tops, width, height, layers, y, x, l), l, y, x, true)
            == Painted(tops, width, height, layers, y, x, l + 1)
  {
    var p := Painted(tops, width, height, layers, y, x, l);
    var q := Set3(p, l, y, x, true);
    var r := Painted(tops, width, height, layers, y, x, l + 1);
    forall k, j, i | 0 <= k < layers && 0 <= j < height && 0 <= i < width
      ensures q[k][j][i] == r[k][j][i]
    {
      PaintedCell(tops, width, height, layers, y, x, l + 1, k, j, i);
      if (k, j, i) != (l, y, x) {
        PaintedCell(tops, width, height, layers, y, x, l, k, j, i);
        assert q[k][j][i] == p[k][j][i];
      }
    }
    SameCells(q, r, layers, height, width);
  }

  lemma PaintCellDone(tops: seq<seq<int>>, width: nat, height: nat, layers: nat, y: int, x: int)
    requires Covers(tops, width, height)
    requires 0 <= y < height && 0 <= x < width
    ensures Painted(tops, width, height, layers, y, x, Max(0, tops[y][x] + 1))
            == Painted(tops, width, height, layers, y, x + 1, 0)
  {
    PaintedCells(tops, width, height, layers, y, x, Max(0, tops[y][x] + 1));
    PaintedCells(tops, width, height, layers, y, x + 1, 0);
    SameCells(Painted(tops, width, height, layers, y, x, Max(0, tops[y][x] + 1)),
              Painted(tops, width, height, layers, y, x + 1, 0), layers, height, width);
  }

  lemma PaintRowDone(tops: seq<seq<int>>, width: nat, height: nat, layers: nat, y: int)
    requires Covers(tops, width, height)
    ensures Painted(tops, width, height, layers, y, width, 0) == Painted(tops, width, height, layers, y + 1, 0, 0)
  {
    PaintedCells(tops, width, height, layers, y, width, 0);
    PaintedCells(tops, width, height, layers, y + 1, 0, 0);
    SameCells(Painted(tops, width, height, layers, y, width, 0), Painted(tops, width, height, layers, y + 1, 0, 0), layers, height, width);
  }

  lemma PaintedEnd(tmap: seq<seq<int>>, width: nat, height: nat, layers: nat)
    requires layers >= 1 && Covers(tmap, width, height)
    ensures Covers(TopLayers(tmap, width, height, layers), width, height)
    ensures Painted(TopLayers(tmap, width, height, layers), width, height, layers, height, 0, 0)
            == Loaded(tmap, width, height, layers)
  {
    var tops := TopLayers(tmap, width, height, layers);
    PaintedCells(tops, width, height, layers, height, 0, 0);
    SameCells(Painted(tops, width, height, layers, height, 0, 0), Loaded(tmap, width, height, layers), layers, height, width);
  }

  /** After an import, the highest active layer of a cell is the one its
      value selects. */
  lemma {:induction false} LoadedTop(tmap: seq<seq<int>>, width: nat, height: nat, layers: int, x: int, y: int)
    requires layers >= 1 && Covers(tmap, width, height) && 0 <= x < width && 0 <= y < height
    ensures HasCell(Loaded(tmap, width, height, layers), x, y)
    ensures HighestActive(Loaded(tmap, width, height, layers), layers, x, y) == Max(-1, TopLayerFor(tmap[y][x], layers))
  {
    var p := Loaded(tmap, width, height, layers);
    var t := TopLayerFor(tmap[y][x], layers);
    if t >= 0 {
      assert p[t][y][x];
    }
  }

  /** Export after import: 0 stays 0, a value v in [1,255] comes back as a
      value in [v, v + 255/layers], out-of-range values are clipped. */
  lemma {:induction false} ImportExportRoundTrip(tmap: seq<seq<int>>, width: nat, height: nat, layers: int, x: int, y: int)
    requires layers >= 1 && Covers(tmap, width, height) && 0 <= x < width && 0 <= y < height
    ensures HasCell(Loaded(tmap, width, height, layers), x, y)
    ensures var v := tmap[y][x];
      var t := CellThreshold(Loaded(tmap, width, height, layers), layers, x, y);
      && (v <= 0 ==> t == 0)
      && (1 <= v <= 255 ==> v <= t && t * layers <= v * layers + 255)
      && (v > 255 ==> t == 255)
  {
    LoadedTop(tmap, width, height, layers, x, y);
    ReimportedThreshold(tmap[y][x], layers);
  }

  /** The arithmetic of the round trip for one value v. */
  lemma {:induction false} ReimportedThreshold(v: int, layers: int)
    requires layers >= 1
    ensures var t := LayerThreshold(Max(-1, TopLayerFor(v, layers)), layers);
      && (v <= 0 ==> t == 0)
      && (1 <= v <= 255 ==> v <= t && t * layers <= v * layers + 255)
      && (v > 255 ==> t == 255)
  {
    if v < 0 {
      MulMonotone(v, -1, layers);
      DivLower(v * layers, 255, 0);
    } else if v >= 255 {
      MulMonotone(255, v, layers);
      DivLower(v * layers, 255, layers);
      DivLower(layers * 255, layers, 255);
      DivLower(layers * 255, layers, 256);
    } else if v >= 1 {
      ReimportedInRange(v, layers);
    }
  }

  lemma {:induction false} ReimportedInRange(v: int, layers: int)
    requires layers >= 1 && 1 <= v < 255
    ensures var t := LayerThreshold(TopLayerFor(v, layers), layers);
      v <= t && t * layers <= v * layers + 255
  {
    var q := v * layers / 255;
    DivFloor(v * layers, 255);
    MulMonotone(0, v, layers);
    var k := Min(q, layers - 1);
    assert 0 <= k;
    if k < q {
      MulMonotone(v, 255, layers);
    }
    DivLower((k + 1) * 255, layers, v);
    DivFloor((k + 1) * 255, layers);
    MulMonotone(k, q, 255);
  }

  /** Import after export is not the identity: with 3 layers, a cell active
      on layer 0 only exports as 85, and 85 re-imports onto layers 0 and 1. */
  lemma ExportImportShiftsLayer()
    ensures var p: Grid := [[[true]], [[false]], [[false]]];
      && HasCell(p, 0, 0)
      && CellThreshold(p, 3, 0, 0) == 85
      && Loaded([[85]], 1, 1, 3)[1][0][0]
  {
    var p: Grid := [[[true]], [[false]], [[false]]];
    assert HasCell(p, 0, 0);
    assert HighestActive(p, 3, 0, 0) == 0;
  }

  // ---------------------------------------------------------------------
  // Detecting a layer count from a threshold map
  // ---------------------------------------------------------------------

  /** The map's values row by row (`thresholdMap.flat()`). */
  function Flat(tmap: seq<seq<int>>): seq<int> {
    if |tmap| == 0 then [] else Flat(tmap[..|tmap| - 1]) + tmap[|tmap| - 1]
  }

  /** Flattening keeps exactly the map's values. */
  lemma {:induction false} FlatMembers(tmap: seq<seq<int>>)
    ensures forall v :: v in Flat(tmap) <==> exists y, x :: 0 <= y < |tmap| && 0 <= x < |tmap[y]| && tmap[y][x] == v
  {
    if |tmap| > 0 {
      var init := tmap[..|tmap| - 1];
      FlatMembers(init);
      assert forall y :: 0 <= y < |init| ==> init[y] == tmap[y];
    }
  }

  predicate Increasing(q: seq<int>) {
    forall i, j :: 0 <= i < j < |q| ==> q[i] < q[j]
  }

  /** q with v added, keeping it strictly increasing (no effect when v is in q). */
  function InsertSorted(q: seq<int>, v: int): (r: seq<int>)
    requires Increasing(q)
    ensures Increasing(r)
    ensures forall u :: u in r <==> u in q || u == v
  {
    if |q| == 0 then [v]
    else if v < q[0] then [v] + q
    else if v == q[0] then q
    else
      var rest := InsertSorted(q[1..], v);
      assert forall u :: u in rest ==> q[0] < u;
      var r := [q[0]] + rest;
      assert Increasing(r) by {
        forall i, j | 0 <= i < j < |r|
          ensures r[i] < r[j]
        {
          assert r[j] == rest[j - 1] && rest[j - 1] in rest;
          if i > 0 {
            assert r[i] == rest[i - 1];
          }
        }
      }
      r
  }

  /** The distinct positive values of vs in increasing order
      (`Array.from(new Set(vs)).filter(v => v > 0).sort((a, b) => a - b)`). */
  function UniqueSorted(vs: seq<int>): (q: seq<int>)
    ensures Increasing(q)
  {
    if |vs| == 0 then []
    else if vs[|vs| - 1] > 0 then InsertSorted(UniqueSorted(vs[..|vs| - 1]), vs[|vs| - 1])
    else UniqueSorted(vs[..|vs| - 1])
  }

  /** UniqueSorted keeps exactly the positive values, each once, in
      increasing order. */
  lemma {:induction false} UniqueSortedMembers(vs: seq<int>)
    ensures Increasing(UniqueSorted(vs))
    ensures forall u :: u in UniqueSorted(vs) <==> u in vs && u > 0
  {
    if |vs| > 0 {
      var init := vs[..|vs| - 1];
      UniqueSortedMembers(init);
      assert vs == init + [vs[|vs| - 1]];
    }
  }

  /** How many neighbours among q[0..n) differ by more than 8. */
  function GapCount(q: seq<int>, n: int): (g: int)
    requires 0 <= n <= |q|
    ensures 0 <= g && (n >= 1 ==> g <= n - 1)
  {
    if n <= 1 then 0
    else GapCount(q, n - 1) + (if q[n - 1] - q[n - 2] > 8 then 1 else 0)
  }

  /** `Array.from(new Set(vs)).filter(v => v > 0).sort((a, b) => a - b)`,
      built by inserting the values one by one into an increasing listing. */
  method DistinctPositive(vs: seq<int>) returns (q: seq<int>)
    ensures q == UniqueSorted(vs)
  {
    q := [];
    var k := 0;
    while k < |vs|
      invariant 0 <= k <= |vs|
      invariant q == UniqueSorted(vs[..k])
    {
      assert vs[..k + 1][..k] == vs[..k];
      if vs[k] > 0 {
        q := InsertSorted(q, vs[k]);
      }
      k := k + 1;
    }
    assert vs[..k] == vs;
  }

  /** The layer-counting loop: one layer, plus one per gap wider than 8. */
  method CountLayers(q: seq<int>) returns (layerCount: int)
    requires |q| >= 1
    ensures layerCount == 1 + GapCount(q, |q|)
  {
    layerCount := 1;
    var i := 1;
    while i < |q|
      invariant 1 <= i <= |q|
      invariant layerCount == 1 + GapCount(q, i)
    {
      if q[i] - q[i - 1] > 8 {
        layerCount := layerCount + 1;
      }
      i := i + 1;
    }
  }

  /** The layer count `detectLayersFromThresholdMap` picks: 2 when the map
      has no positive value, otherwise one more than the number of gaps
      wider than 8 between consecutive distinct positive values, clamped to
      [2, 32]. */
  function DetectedLayers(tmap: seq<seq<int>>): (count: int)
    ensures 2 <= count <= 32
  {
    var q := UniqueSorted(Flat(tmap));
    if |q| == 0 then 2 else Min(32, Max(2, 1 + GapCount(q, |q|)))
  }

  /** A strictly increasing sequence is determined by its elements, so
      UniqueSorted is the one listing of the distinct positive values. */
  lemma {:induction false} IncreasingUnique(a: seq<int>, b: seq<int>)
    requires Increasing(a) && Increasing(b)
    requires forall u :: u in a <==> u in b
    ensures a == b
    decreases |a|
  {
    assert |a| == 0 <==> |b| == 0 by {
      if |a| > 0 { assert a[0] in a; }
      if |b| > 0 { assert b[0] in b; }
    }
    if |a| > 0 {
      assert a[0] == b[0] by {
        assert a[0] in a && b[0] in b;
        var i :| 0 <= i < |b| && b[i] == a[0];
        var j :| 0 <= j < |a| && a[j] == b[0];
        assert b[0] <= b[i] && a[0] <= a[j];
      }
      forall u ensures u in a[1..] <==> u in b[1..] {
        if u in a[1..] {
          var i :| 1 <= i < |a| && a[i] == u;
          assert u in b && u != b[0];
        }
        if u in b[1..] {
          var i :| 1 <= i < |b| && b[i] == u;
          assert u in a && u != a[0];
        }
      }
      IncreasingUnique(a[1..], b[1..]);
      assert a == [a[0]] + a[1..] && b == [b[0]] + b[1..];
    }
  }

  /** Every value of the map is a threshold the detected count can
      distinguish: a detected count lies in [2,32] and never exceeds the
      number of distinct positive values (or 2). */
  lemma DetectedLayersRange(tmap: seq<seq<int>>)
    ensures 2 <= DetectedLayers(tmap) <= 32
    ensures DetectedLayers(tmap) <= Max(2, |UniqueSorted(Flat(tmap))|)
  {
  }

  // ---------------------------------------------------------------------
  // The layer data saved with a preset
  // ---------------------------------------------------------------------

  /** `cell ? 1 : 0` over the whole grid, as `addToPresets` saves it. */
  function EncodeLayerData(p: Grid): (d: seq<seq<seq<int>>>)
    ensures |d| == |p|
    ensures forall l :: 0 <= l < |p| ==> |d[l]| == |p[l]|
    ensures forall l, y :: 0 <= l < |p| && 0 <= y < |p[l]| ==> |d[l][y]| == |p[l][y]|
    ensures forall l, y, x :: 0 <= l < |p| && 0 <= y < |p[l]| && 0 <= x < |p[l][y]| ==>
              (d[l][y][x] == 0 || d[l][y][x] == 1) && (d[l][y][x] == 1 <==> p[l][y][x])
  {
    seq(|p|, l requires 0 <= l < |p| => seq(|p[l]|, y requires 0 <= y < |p[l]| =>
      seq(|p[l][y]|, x requires 0 <= x < |p[l][y]| => if p[l][y][x] then 1 else 0)))
  }

  /** Reading saved layer data back: a nonzero entry is an active cell. */
  function DecodeLayerData(d: seq<seq<seq<int>>>): (p: Grid)
    ensures |p| == |d|
    ensures forall l :: 0 <= l < |d| ==> |p[l]| == |d[l]|
    ensures forall l, y :: 0 <= l < |d| && 0 <= y < |d[l]| ==> |p[l][y]| == |d[l][y]|
    ensures forall l, y, x :: 0 <= l < |d| && 0 <= y < |d[l]| && 0 <= x < |d[l][y]| ==> (p[l][y][x] <==> d[l][y][x] != 0)
  {
    seq(|d|, l requires 0 <= l < |d| => seq(|d[l]|, y requires 0 <= y < |d[l]| =>
      seq(|d[l][y]|, x requires 0 <= x < |d[l][y]| => d[l][y][x] != 0)))
  }

  /** The saved layer data restores the exact grid. */
  lemma {:induction false} LayerDataRoundTrip(p: Grid)
    ensures DecodeLayerData(EncodeLayerData(p)) == p
  {
    var q := DecodeLayerData(EncodeLayerData(p));
    assert |q| == |p|;
    forall l | 0 <= l < |p| ensures q[l] == p[l] {
      assert |q[l]| == |p[l]|;
      forall y | 0 <= y < |p[l]| ensures q[l][y] == p[l][y] {
        assert |q[l][y]| == |p[l][y]|;
      }
    }
  }

  /** One cell of the activation loops: layers 0 ..= the cell's top layer
      are switched on, nothing for a zero value. */
  method ActivateCell(tmap: seq<seq<int>>, w: nat, h: nat, count: int, ghost tops: seq<seq<int>>,
                      y: int, x: int, grid0: Grid) returns (grid: Grid)
    requires count >= 1 && Covers(tmap, w, h) && 0 <= y < h && 0 <= x < w
    requires tops == TopLayers(tmap, w, h, count)
    requires grid0 == Painted(tops, w, h, count, y, x, 0)
    ensures grid == Painted(tops, w, h, count, y, x + 1, 0)
  {
    grid := grid0;
    var val := tmap[y][x];
    assert tops[y][x] == TopLayerFor(val, count);
    if val != 0 {
      var layerIndex := Min(val * count / 255, count - 1);
      assert layerIndex == tops[y][x];
      var l := 0;
      while l <= layerIndex
        invariant 0 <= l <= Max(0, layerIndex + 1)
        invariant grid == Painted(tops, w, h, count, y, x, l)
      {
        PaintStep(tops, w, h, count, y, x, l);
        grid := Set3(grid, l, y, x, true);
        l := l + 1;
      }
      assert l == Max(0, tops[y][x] + 1);
    } else {
      assert Max(0, tops[y][x] + 1) == 0;
    }
    PaintCellDone(tops, w, h, count, y, x);
  }

  /** The activation loops of `loadPatternFromThresholdMap`, run on the
      freshly cleared grid: every cell with a nonzero value gets layers
      0 ..= min(floor(value / (255 / layers)), layers - 1) switched on. */
  method ActivateLayers(tmap: seq<seq<int>>, w: nat, h: nat, count: int, blank: Grid) returns (grid: Grid)
    requires count >= 1 && Covers(tmap, w, h) && blank == Blank(count, h, w)
    ensures grid == Loaded(tmap, w, h, count)
  {
    grid := blank;
    ghost var tops := TopLayers(tmap, w, h, count);
    PaintedStart(tops, w, h, count);
    var y := 0;
    while y < h
      invariant 0 <= y <= h
      invariant grid == Painted(tops, w, h, count, y, 0, 0)
    {
      var x := 0;
      while x < w
        invariant 0 <= x <= w
        invariant grid == Painted(tops, w, h, count, y, x, 0)
      {
        grid := ActivateCell(tmap, w, h, count, tops, y, x, grid);
        x := x + 1;
      }
      PaintRowDone(tops, w, h, count, y);
      y := y + 1;
    }
    PaintedEnd(tmap, w, h, count);
  }

  // ---------------------------------------------------------------------
  // The editor object
  // ---------------------------------------------------------------------

  class PatternEditor {
    var width: int
    var height: int
    var layers: int
    var currentLayer: int
    var pixels: Grid
    var isDrawing: bool
    var lastX: int
    var lastY: int

    ghost predicate Valid()
      reads this
    {
      && 0 <= width && 0 <= height && 1 <= layers
      && 0 <= currentLayer < layers
      && Shaped(pixels, layers, height, width)
    }

    constructor (w: int, h: int, l: int)
      requires w >= 0 && h >= 0 && l >= 1
      ensures Valid()
      ensures width == w && height == h && layers == l && currentLayer == 0
      ensures pixels == Blank(l, h, w)
      ensures !isDrawing && lastX == -1 && lastY == -1
    {
      width, height, layers, currentLayer := w, h, l, 0;
      isDrawing, lastX, lastY := false, -1, -1;
      new;
      InitPixels();
    }

    method InitPixels()
      requires width >= 0 && height >= 0 && layers >= 0
      modifies this
      ensures width == old(width) && height == old(height) && layers == old(layers)
      ensures currentLayer == old(currentLayer)
      ensures isDrawing == old(isDrawing) && lastX == old(lastX) && lastY == old(lastY)
      ensures pixels == Blank(layers, height, width)
    {
      pixels := Blank(layers, height, width);
    }

    method ResizeWidth(newWidth: int)
      requires Valid() && newWidth >= 0
      modifies this
      ensures Valid()
      ensures width == newWidth
      ensures height == old(height) && layers == old(layers) && currentLayer == old(currentLayer)
      ensures isDrawing == old(isDrawing) && lastX == old(lastX) && lastY == old(lastY)
      ensures newWidth == old(width) ==> pixels == old(pixels)
      ensures forall l, y, x :: 0 <= l < layers && 0 <= y < height && 0 <= x < newWidth ==>
                pixels[l][y][x] == (x < old(width) && old(pixels)[l][y][x])
    {
      var oldWidth := width;
      if newWidth == oldWidth { return; }
      var l := 0;
      while l < layers
        modifies this`pixels
        invariant 0 <= l <= layers
        invariant width == oldWidth
        invariant |pixels| == layers
        invariant forall k :: 0 <= k < layers ==> |pixels[k]| == height
        invariant forall k, j :: 0 <= k < l && 0 <= j < height ==> |pixels[k][j]| == newWidth
        invariant forall k, j :: l <= k < layers && 0 <= j < height ==> pixels[k][j] == old(pixels)[k][j]
        invariant forall k, j, i :: 0 <= k < l && 0 <= j < height && 0 <= i < newWidth ==>
                    pixels[k][j][i] == (i < oldWidth && old(pixels)[k][j][i])
      {
        var y := 0;
        while y < height
          modifies this`pixels
          invariant 0 <= y <= height
          invariant |pixels| == layers
          invariant forall k :: 0 <= k < layers ==> |pixels[k]| == height
          invariant forall k, j :: 0 <= k < l && 0 <= j < height ==> |pixels[k][j]| == newWidth
          invariant forall j :: 0 <= j < y ==> |pixels[l][j]| == newWidth
          invariant forall j :: y <= j < height ==> pixels[l][j] == old(pixels)[l][j]
          invariant forall k, j :: l < k < layers && 0 <= j < height ==> pixels[k][j] == old(pixels)[k][j]
          invariant forall k, j, i :: 0 <= k < l && 0 <= j < height && 0 <= i < newWidth ==>
                      pixels[k][j][i] == (i < oldWidth && old(pixels)[k][j][i])
          invariant forall j, i :: 0 <= j < y && 0 <= i < newWidth ==>
                      pixels[l][j][i] == (i < oldWidth && old(pixels)[l][j][i])
        {
          var row := pixels[l][y];
          if newWidth > oldWidth {
            row := row + Row(newWidth - oldWidth);
          } else {
            row := row[..newWidth];
          }
          pixels := pixels[l := pixels[l][y := row]];
          y := y + 1;
        }
        l := l + 1;
      }
      width := newWidth;
    }

    method ResizeHeight(newHeight: int)
      requires Valid() && newHeight >= 0
      modifies this
      ensures Valid()
      ensures height == newHeight
      ensures width == old(width) && layers == old(layers) && currentLayer == old(currentLayer)
      ensures isDrawing == old(isDrawing) && lastX == old(lastX) && lastY == old(lastY)
      ensures newHeight == old(height) ==> pixels == old(pixels)
      ensures forall l, y, x :: 0 <= l < layers && 0 <= y < newHeight && 0 <= x < width ==>
                pixels[l][y][x] == (y < old(height) && old(pixels)[l][y][x])
    {
      var oldHeight := height;
      if newHeight == oldHeight { return; }
      var l := 0;
      while l < layers
        modifies this`pixels
        invariant 0 <= l <= layers
        invariant height == oldHeight
        invariant |pixels| == layers
        invariant forall k :: l <= k < layers ==> pixels[k] == old(pixels)[k]
        invariant forall k :: 0 <= k < l ==> |pixels[k]| == newHeight
        invariant forall k, j :: 0 <= k < l && 0 <= j < newHeight ==> |pixels[k][j]| == width
        invariant forall k, j, i :: 0 <= k < l && 0 <= j < newHeight && 0 <= i < width ==>
                    pixels[k][j][i] == (j < oldHeight && old(pixels)[k][j][i])
      {
        if newHeight > oldHeight {
          pixels := pixels[l := pixels[l] + Plane(newHeight - oldHeight, width)];
        } else {
          pixels := pixels[l := pixels[l][..newHeight]];
        }
        l := l + 1;
      }
      height := newHeight;
    }

    method ResizeLayers(newLayers: int)
      requires Valid() && newLayers >= 1
      modifies this
      ensures Valid()
      ensures layers == newLayers
      ensures width == old(width) && height == old(height)
      ensures isDrawing == old(isDrawing) && lastX == old(lastX) && lastY == old(lastY)
      ensures currentLayer == if old(currentLayer) >= newLayers then newLayers - 1 else old(currentLayer)
      ensures forall l :: 0 <= l < newLayers ==>
                pixels[l] == if l < old(layers) then old(pixels)[l] else Plane(height, width)
    {
      var oldLayers := layers;
      if newLayers == oldLayers { return; }
      if newLayers > oldLayers {
        pixels := pixels + Blank(newLayers - oldLayers, height, width);
      } else {
        pixels := pixels[..newLayers];
      }
      layers := newLayers;
      if currentLayer >= newLayers {
        currentLayer := newLayers - 1;
      }
    }

    /** `isPixelLocked(x, y, upToLayer)`. */
    method IsPixelLocked(x: int, y: int, upToLayer: int) returns (locked: bool)
      requires Valid() && 0 <= x < width && 0 <= y < height && 0 <= upToLayer <= layers
      ensures HasCell(pixels, x, y) && (locked <==> Locked(pixels, x, y, upToLayer))
    {
      var l := 0;
      while l < upToLayer
        invariant 0 <= l <= upToLayer
        invariant forall k :: 0 <= k < l ==> !pixels[k][y][x]
      {
        if pixels[l][y][x] { return true; }
        l := l + 1;
      }
      return false;
    }

    method TogglePixel(x: int, y: int)
      requires Valid() && 0 <= x < width && 0 <= y < height
      modifies this
      ensures width == old(width) && height == old(height) && layers == old(layers)
      ensures currentLayer == old(currentLayer)
      ensures Valid()
      ensures pixels == Toggled(old(pixels), currentLayer, x, y)
      ensures isDrawing == old(isDrawing) && lastX == old(lastX) && lastY == old(lastY)
    {
      var locked := IsPixelLocked(x, y, currentLayer);
      if locked { return; }
      pixels := Set3(pixels, currentLayer, y, x, !pixels[currentLayer][y][x]);
    }

    /** The `mousedown` handler: start drawing and toggle the pressed cell. */
    method BeginDrag(x: int, y: int)
      requires Valid()
      modifies this
      ensures Valid()
      ensures width == old(width) && height == old(height) && layers == old(layers)
      ensures currentLayer == old(currentLayer)
      ensures 0 <= x < width && 0 <= y < height ==>
                isDrawing && lastX == x && lastY == y && pixels == Toggled(old(pixels), currentLayer, x, y)
      ensures !(0 <= x < width && 0 <= y < height) ==>
                pixels == old(pixels) && isDrawing == old(isDrawing) && lastX == old(lastX) && lastY == old(lastY)
    {
      if 0 <= x < width && 0 <= y < height {
        isDrawing := true;
        lastX, lastY := x, y;
        TogglePixel(x, y);
      }
    }

    /** The drag step of the `mousemove` handler, entered at (x, y) while
        drawing: paint the previously visited cell's value into (x, y). */
    method DragTo(x: int, y: int)
      requires Valid() && 0 <= lastX < width && 0 <= lastY < height
      modifies this
      ensures Valid()
      ensures width == old(width) && height == old(height) && layers == old(layers)
      ensures currentLayer == old(currentLayer) && isDrawing == old(isDrawing)
      ensures 0 <= x < width && 0 <= y < height ==>
                pixels == Dragged(old(pixels), currentLayer, old(lastX), old(lastY), x, y)
                && lastX == x && lastY == y
      ensures !(0 <= x < width && 0 <= y < height) ==>
                pixels == old(pixels) && lastX == old(lastX) && lastY == old(lastY)
    {
      if 0 <= x < width && 0 <= y < height {
        if x != lastX || y != lastY {
          var currentValue := pixels[currentLayer][y][x];
          var initialValue := pixels[currentLayer][lastY][lastX];
          var locked := IsPixelLocked(x, y, currentLayer);
          if currentValue != initialValue && !locked {
            pixels := Set3(pixels, currentLayer, y, x, initialValue);
          }
          lastX, lastY := x, y;
        }
      }
    }

    /** The `mouseup` handler. */
    method EndDrag()
      modifies this
      ensures !isDrawing
      ensures pixels == old(pixels) && width == old(width) && height == old(height)
      ensures layers == old(layers) && currentLayer == old(currentLayer)
      ensures lastX == old(lastX) && lastY == old(lastY)
    {
      isDrawing := false;
    }

    /** `getThresholdMap()`: per cell, the threshold of its highest active layer. */
    method GetThresholdMap() returns (tmap: seq<seq<int>>)
      requires Valid()
      ensures |tmap| == height
      ensures forall y :: 0 <= y < height ==> |tmap[y]| == width
      ensures forall y, x :: 0 <= y < height && 0 <= x < width ==>
                HasCell(pixels, x, y) && tmap[y][x] == CellThreshold(pixels, layers, x, y)
    {
      var w, h := width, height;
      tmap := seq(h, _ => seq(w, _ => 0));
      var y := 0;
      while y < height
        invariant 0 <= y <= height
        invariant |tmap| == height
        invariant forall j :: 0 <= j < height ==> |tmap[j]| == width
        invariant forall j, i :: 0 <= j < y && 0 <= i < width ==>
                    HasCell(pixels, i, j) && tmap[j][i] == CellThreshold(pixels, layers, i, j)
      {
        var x := 0;
        while x < width
          invariant 0 <= x <= width
          invariant |tmap| == height
          invariant forall j :: 0 <= j < height ==> |tmap[j]| == width
          invariant forall j, i :: 0 <= j < y && 0 <= i < width ==>
                      HasCell(pixels, i, j) && tmap[j][i] == CellThreshold(pixels, layers, i, j)
          invariant forall i :: 0 <= i < x ==>
                      HasCell(pixels, i, y) && tmap[y][i] == CellThreshold(pixels, layers, i, y)
        {
          assert HasCell(pixels, x, y);
          var maxLayer := -1;
          var l := 0;
          while l < layers
            invariant 0 <= l <= layers
            invariant maxLayer == HighestActive(pixels, l, x, y)
          {
            if pixels[l][y][x] { maxLayer := l; }
            l := l + 1;
          }
          var v := if maxLayer >= 0 then Min(255, (maxLayer + 1) * 255 / layers) else 0;
          tmap := tmap[y := tmap[y][x := v]];
          x := x + 1;
        }
        y := y + 1;
      }
    }

    /** `loadPatternFromThresholdMap(map, width, height, layers)`; a missing
        layer count (`null`) is detected from the map. */
    method LoadPatternFromThresholdMap(tmap: seq<seq<int>>, w: int, h: int, layerCount: Option<int>)
      requires Valid() && w >= 0 && h >= 0 && Covers(tmap, w, h)
      requires layerCount.Some? ==> layerCount.value >= 1
      modifies this
      ensures Valid()
      ensures width == w && height == h && currentLayer == 0
      ensures layers == if layerCount.None? then DetectedLayers(tmap) else layerCount.value
      ensures pixels == Loaded(tmap, w, h, layers)
      ensures isDrawing == old(isDrawing) && lastX == old(lastX) && lastY == old(lastY)
    {
      var count := if layerCount.Some? then layerCount.value else 0;
      if layerCount.None? {
        count := DetectLayersFromThresholdMap(tmap);
        DetectedLayersRange(tmap);
      }
      width, height, layers := w, h, count;
      InitPixels();
      pixels := ActivateLayers(tmap, w, h, count, pixels);
      currentLayer := 0;
    }

    /** `clear()`: a fresh all-inactive grid of the current dimensions. */
    method Clear()
      requires Valid()
      modifies this
      ensures Valid()
      ensures pixels == Blank(layers, height, width)
      ensures width == old(width) && height == old(height) && layers == old(layers)
      ensures currentLayer == old(currentLayer)
      ensures isDrawing == old(isDrawing) && lastX == old(lastX) && lastY == old(lastY)
    {
      InitPixels();
    }

    /** `clearAll()`; `confirmed` is the user's answer to the confirmation
        dialog. Every cell becomes inactive, the dimensions stay. */
    method ClearAll(confirmed: bool)
      requires Valid()
      modifies this
      ensures Valid()
      ensures pixels == if confirmed then Blank(layers, height, width) else old(pixels)
      ensures width == old(width) && height == old(height) && layers == old(layers)
      ensures currentLayer == old(currentLayer)
      ensures isDrawing == old(isDrawing) && lastX == old(lastX) && lastY == old(lastY)
    {
      if !confirmed { return; }
      var l := 0;
      while l < layers
        modifies this`pixels
        invariant 0 <= l <= layers
        invariant Shaped(pixels, layers, height, width)
        invariant forall k, j, i :: 0 <= k < l && 0 <= j < height && 0 <= i < width ==> !pixels[k][j][i]
      {
        var y := 0;
        while y < height
          modifies this`pixels
          invariant 0 <= y <= height
          invariant Shaped(pixels, layers, height, width)
          invariant forall k, j, i :: 0 <= k < l && 0 <= j < height && 0 <= i < width ==> !pixels[k][j][i]
          invariant forall j, i :: 0 <= j < y && 0 <= i < width ==> !pixels[l][j][i]
        {
          var x := 0;
          while x < width
            modifies this`pixels
            invariant 0 <= x <= width
            invariant Shaped(pixels, layers, height, width)
            invariant forall k, j, i :: 0 <= k < l && 0 <= j < height && 0 <= i < width ==> !pixels[k][j][i]
            invariant forall j, i :: 0 <= j < y && 0 <= i < width ==> !pixels[l][j][i]
            invariant forall i :: 0 <= i < x ==> !pixels[l][y][i]
          {
            pixels := Set3(pixels, l, y, x, false);
            x := x + 1;
          }
          y := y + 1;
        }
        l := l + 1;
      }
      ghost var target := Blank(layers, height, width);
      assert pixels == target by {
        forall k | 0 <= k < layers ensures pixels[k] == target[k] {
          forall j | 0 <= j < height ensures pixels[k][j] == target[k][j] {
          }
        }
      }
    }

    /** `detectLayersFromThresholdMap(map)`. */
    method DetectLayersFromThresholdMap(tmap: seq<seq<int>>) returns (count: int)
      ensures count == DetectedLayers(tmap)
    {
      var uniqueValues := DistinctPositive(Flat(tmap));
      if |uniqueValues| == 0 { return 2; }
      var layerCount := CountLayers(uniqueValues);
      count := Min(32, Max(2, layerCount));
    }
  }
}
