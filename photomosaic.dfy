/** The photomosaic builder: the target image is split into an m-by-n grid
    of tiles, every tile is matched to the input image whose average colour
    is nearest, and the chosen images are laid out row by row on a canvas.
    Pixels are not modelled: an image is its size and its average colour,
    and the average colour of a target tile is supplied from outside. */
module Photomosaic {
  import opened Arith
  import opened Wrappers

  /** An average colour, the float triple of `getAverageRGB`. */
  datatype Rgb = Rgb(r: real, g: real, b: real)

  /** The squared distance in RGB space that `getBestMatchIndex` compares;
      the square root is left out, as in the script. */
  function SqDist(a: Rgb, b: Rgb): real {
    (a.r - b.r) * (a.r - b.r) + (a.g - b.g) * (a.g - b.g) + (a.b - b.b) * (a.b - b.b)
  }

  // ---- best match ---------------------------------------------------------

  /** `k` is the answer of the linear search: no entry of `avgs` is closer
      to `input`, and every earlier entry is strictly farther away. */
  ghost predicate IsFirstMin(input: Rgb, avgs: seq<Rgb>, k: int) {
    IsFirstMinBelow(input, avgs, k, |avgs|)
  }

  /** `k` is the answer of the search over the first `bound` entries. */
  ghost predicate IsFirstMinBelow(input: Rgb, avgs: seq<Rgb>, k: int, bound: int)
    requires bound <= |avgs|
  {
    && 0 <= k < bound
    && (forall j :: 0 <= j < bound ==> SqDist(avgs[k], input) <= SqDist(avgs[j], input))
    && (forall j :: 0 <= j < k ==> SqDist(avgs[k], input) < SqDist(avgs[j], input))
  }

  /** `k` is what the search returns for the average `avg` of a target
      tile: the first nearest entry, or 0 when the average is NaN. */
  ghost predicate IsTileMatch(avg: Option<Rgb>, avgs: seq<Rgb>, k: int) {
    && (avg.Some? ==> IsFirstMin(avg.value, avgs, k))
    && (avg.None? ==> k == 0)
  }

  /** The first-minimum index is unique: on ties the smallest index wins. */
  lemma FirstMinUnique(input: Rgb, avgs: seq<Rgb>, k1: int, k2: int)
    requires IsFirstMin(input, avgs, k1) && IsFirstMin(input, avgs, k2)
    ensures k1 == k2
  {
    var d1, d2 := SqDist(avgs[k1], input), SqDist(avgs[k2], input);
  }

  /** `getBestMatchIndex`: a linear scan keeping the least distance seen so
      far (`None` stands for the initial `float("inf")`) and its index; the
      strict `<` keeps the earliest of equally close entries. An input of
      `None` is the NaN average of an empty crop: every distance to it is
      NaN, no comparison `dis < min_dist` holds, and the index stays 0. */
  method GetBestMatchIndex(input: Option<Rgb>, avgs: seq<Rgb>) returns (minIndex: nat)
    ensures |avgs| == 0 ==> minIndex == 0
    ensures |avgs| > 0 ==> IsTileMatch(input, avgs, minIndex)
  {
    var index := 0;
    minIndex := 0;
    var minDist: Option<real> := None;
    while index < |avgs|
      invariant 0 <= index <= |avgs|
      invariant index == 0 || input.None? ==> minDist == None && minIndex == 0
      invariant index > 0 && input.Some? ==>
        IsFirstMinBelow(input.value, avgs, minIndex, index) && minDist == Some(SqDist(avgs[minIndex], input.value))
    {
      if input.Some? {
        var dis := SqDist(avgs[index], input.value);
        if minDist.None? || dis < minDist.value {
          minDist := Some(dis);
          minIndex := index;
        }
      }
      index := index + 1;
    }
  }

  // ---- splitting the target -----------------------------------------------

  /** A crop box `(left, upper, right, lower)`. */
  datatype Box = Box(left: int, upper: int, right: int, lower: int)

  /** The box of the tile in column `i` and row `j` when a `W`-by-`H` image
      is split into `m` rows and `n` columns of `W / n`-by-`H / m` tiles. */
  function TileBox(W: nat, H: nat, m: int, n: int, i: int, j: int): Box
    requires m > 0 && n > 0
  {
    var w, h := W / n, H / m;
    Box(i * w, j * h, (i + 1) * w, (j + 1) * h)
  }

  /** A crop box that holds at least one pixel. */
  predicate NonEmpty(b: Box) {
    b.left < b.right && b.upper < b.lower
  }

  /** The tiles hold pixels exactly when the image has at least one pixel
      per column and per row of the grid; otherwise `int(W/n)` or
      `int(H/m)` is 0 and every tile is an empty crop. */
  lemma TileNonEmptyIff(W: nat, H: nat, m: int, n: int, i: int, j: int)
    requires m > 0 && n > 0 && 0 <= i < n && 0 <= j < m
    ensures NonEmpty(TileBox(W, H, m, n, i, j)) <==> n <= W && m <= H
  {
    var w, h := W / n, H / m;
    assert (i + 1) * w == i * w + w && (j + 1) * h == j * h + h;
    MulBelowIffDiv(W, n, 1);
    MulBelowIffDiv(H, m, 1);
  }

  /** Every tile lies inside the image, with its corners in order. */
  lemma TileInside(W: nat, H: nat, m: int, n: int, i: int, j: int)
    requires m > 0 && n > 0 && 0 <= i < n && 0 <= j < m
    ensures var b := TileBox(W, H, m, n, i, j);
      0 <= b.left <= b.right <= W && 0 <= b.upper <= b.lower <= H
  {
    var w, h := W / n, H / m;
    MulMono(i, i + 1, w);
    MulMono(i + 1, n, w);
    MulMono(j, j + 1, h);
    MulMono(j + 1, m, h);
    MulBelowIffDiv(W, n, w);
    MulBelowIffDiv(H, m, h);
    assert n * w == w * n && m * h == h * m;
  }

  /** Neighbouring tiles share their edges: the tiles of a row abut, and
      so do the tiles of a column. */
  lemma TilesAbut(W: nat, H: nat, m: int, n: int, i: int, j: int)
    requires m > 0 && n > 0
    ensures TileBox(W, H, m, n, i, j).right == TileBox(W, H, m, n, i + 1, j).left
    ensures TileBox(W, H, m, n, i, j).lower == TileBox(W, H, m, n, i, j + 1).upper
  {
  }

  /** `splitImage`, with the nested loop its docstring describes: the tile
      boxes of an m-by-n split in row-major order. Division by a zero size
      fails in the script; a negative size gives no tiles. */
  method SplitImage(W: nat, H: nat, m: int, n: int) returns (boxes: seq<Box>)
    requires m != 0 && n != 0
    ensures m > 0 && n > 0 ==> |boxes| == m * n
    ensures m < 0 || n < 0 ==> boxes == []
    ensures m > 0 && n > 0 ==> forall k :: 0 <= k < |boxes| ==> boxes[k] == TileBox(W, H, m, n, k % n, k / n)
  {
    var w, h := Trunc(W as real / n as real), Trunc(H as real / m as real);
    if m > 0 && n > 0 {
      TruncDiv(W, n);
      TruncDiv(H, m);
    }
    boxes := [];
    var j := 0;
    while j < m
      invariant 0 <= j && (m > 0 ==> j <= m) && (m < 0 ==> j == 0)
      invariant |boxes| == if n > 0 then j * n else 0
      invariant m > 0 && n > 0 ==> forall k :: 0 <= k < |boxes| ==> boxes[k] == TileBox(W, H, m, n, k % n, k / n)
    {
      var i := 0;
      while i < n
        invariant 0 <= i && (n > 0 ==> i <= n)
        invariant n > 0 ==> |boxes| == j * n + i
        invariant n < 0 ==> boxes == []
        invariant m > 0 && n > 0 ==> forall k :: 0 <= k < |boxes| ==> boxes[k] == TileBox(W, H, m, n, k % n, k / n)
      {
        DivModUnique(j * n + i, n, j, i);
        boxes := boxes + [Box(i * w, j * h, (i + 1) * w, (j + 1) * h)];
        i := i + 1;
      }
      j := j + 1;
    }
  }

  /** The box stored at index `j * n + i` is the tile in column `i` and
      row `j`. */
  lemma RowMajor(m: int, n: int, i: int, j: int)
    requires m > 0 && n > 0 && 0 <= i < n && 0 <= j < m
    ensures 0 <= j * n + i < m * n
    ensures (j * n + i) % n == i && (j * n + i) / n == j
  {
    DivModUnique(j * n + i, n, j, i);
    MulMono(j + 1, m, n);
  }

  // ---- laying out the grid ---------------------------------------------------

  /** A grid cell: row and column. */
  datatype Cell = Cell(row: int, col: int)

  /** The cell `createImageGrid` gives image `index`: `row = int(index / n)`,
      `col = index - n * row`. */
  function CellOf(index: nat, n: int): (c: Cell)
    requires n > 0
    ensures 0 <= c.col < n && 0 <= c.row
    ensures index == c.row * n + c.col
  {
    var row := index / n;
    Cell(row, index - n * row)
  }

  /** An index lies below `m * n` exactly when its row lies below `m`. */
  lemma CellRowBound(index: nat, m: int, n: int)
    requires m > 0 && n > 0
    ensures index < m * n <==> CellOf(index, n).row < m
  {
    MulBelowIffDiv(index, n, m);
  }

  /** Every cell of the grid is the cell of exactly one index, so distinct
      images go to distinct cells. */
  lemma CellOfOnto(m: int, n: int, row: int, col: int)
    requires m > 0 && n > 0 && 0 <= row < m && 0 <= col < n
    ensures row * n + col < m * n && CellOf(row * n + col, n) == Cell(row, col)
  {
    RowMajor(m, n, col, row);
  }

  lemma CellOfInjective(a: nat, b: nat, n: int)
    requires n > 0 && CellOf(a, n) == CellOf(b, n)
    ensures a == b
  {
  }

  datatype Size = Size(width: nat, height: nat)

  datatype Point = Point(x: int, y: int)

  /** Python's `max` of a non-empty list. */
  function MaxOf(xs: seq<nat>): (r: nat)
    requires |xs| > 0
    ensures exists k :: 0 <= k < |xs| && xs[k] == r
    ensures forall k :: 0 <= k < |xs| ==> xs[k] <= r
  {
    if |xs| == 1 then xs[0]
    else
      var rest := MaxOf(xs[..|xs| - 1]);
      if xs[|xs| - 1] > rest then xs[|xs| - 1] else rest
  }

  function Widths(sizes: seq<Size>): (r: seq<nat>)
    ensures |r| == |sizes| && forall k :: 0 <= k < |sizes| ==> r[k] == sizes[k].width
  {
    seq(|sizes|, k requires 0 <= k < |sizes| => sizes[k].width)
  }

  function Heights(sizes: seq<Size>): (r: seq<nat>)
    ensures |r| == |sizes| && forall k :: 0 <= k < |sizes| ==> r[k] == sizes[k].height
  {
    seq(|sizes|, k requires 0 <= k < |sizes| => sizes[k].height)
  }

  /** The upper-left corner at which `createImageGrid` pastes image
      `index`, with cells `width` by `height`. */
  function Origin(index: nat, n: int, width: nat, height: nat): Point
    requires n > 0
  {
    var c := CellOf(index, n);
    Point(c.col * width, c.row * height)
  }

  /** A tile no larger than the cell, pasted at the origin of an index
      below `m * n`, lies inside the `n * width` by `m * height` canvas. */
  lemma OriginFits(index: nat, m: int, n: int, width: nat, height: nat, tile: Size)
    requires m > 0 && n > 0 && index < m * n && tile.width <= width && tile.height <= height
    ensures var p := Origin(index, n, width, height);
      0 <= p.x && p.x + tile.width <= n * width && 0 <= p.y && p.y + tile.height <= m * height
  {
    var c := CellOf(index, n);
    CellRowBound(index, m, n);
    MulMono(c.col + 1, n, width);
    MulMono(c.row + 1, m, height);
    assert c.col * width + width == (c.col + 1) * width;
    assert c.row * height + height == (c.row + 1) * height;
  }

  /** `createImageGrid`: the canvas is `n * width` by `m * height` with
      `width` and `height` the largest tile sides; image `index` is pasted
      at the origin of its cell. The script's assertion demands exactly
      `m * n` images. */
  method CreateImageGrid(sizes: seq<Size>, m: int, n: int) returns (canvas: Size, origins: seq<Point>)
    requires m > 0 && n > 0 && m * n == |sizes|
    ensures canvas == Size(n * MaxOf(Widths(sizes)), m * MaxOf(Heights(sizes)))
    ensures |origins| == |sizes|
    ensures forall k :: 0 <= k < |sizes| ==>
      origins[k] == Origin(k, n, MaxOf(Widths(sizes)), MaxOf(Heights(sizes)))
    ensures forall k :: 0 <= k < |sizes| ==>
      && 0 <= origins[k].x && origins[k].x + sizes[k].width <= canvas.width
      && 0 <= origins[k].y && origins[k].y + sizes[k].height <= canvas.height
  {
    MulAtLeast(m, n);
    assert m * n > 0;
    var width := MaxOf(Widths(sizes));
    var height := MaxOf(Heights(sizes));
    MulMono(0, n, width);
    MulMono(0, m, height);
    canvas := Size(n * width, m * height);
    origins := [];
    var index := 0;
    while index < |sizes|
      invariant 0 <= index <= |sizes|
      invariant |origins| == index
      invariant forall k :: 0 <= k < index ==> origins[k] == Origin(k, n, width, height)
    {
      TruncDiv(index, n);
      var row := Trunc(index as real / n as real);
      var col := index - n * row;
      assert Point(col * width, row * height) == Origin(index, n, width, height);
      origins := origins + [Point(col * width, row * height)];
      index := index + 1;
    }
    forall k | 0 <= k < |sizes|
      ensures && 0 <= origins[k].x && origins[k].x + sizes[k].width <= canvas.width
              && 0 <= origins[k].y && origins[k].y + sizes[k].height <= canvas.height
    {
      assert Widths(sizes)[k] <= width && Heights(sizes)[k] <= height;
      OriginFits(k, m, n, width, height, sizes[k]);
    }
  }

  // ---- the whole mosaic -------------------------------------------------------

  /** The cell of `createImageGrid` for `m * n` tiles: the largest width
      and the largest height among them. */
  function CellSize(sizes: seq<Size>, m: int, n: int): (cell: Size)
    requires m > 0 && n > 0 && |sizes| == m * n
    ensures forall k :: 0 <= k < |sizes| ==> sizes[k].width <= cell.width && sizes[k].height <= cell.height
    ensures exists k :: 0 <= k < |sizes| && sizes[k].width == cell.width
    ensures exists k :: 0 <= k < |sizes| && sizes[k].height == cell.height
  {
    MulAtLeast(m, n);
    Size(MaxOf(Widths(sizes)), MaxOf(Heights(sizes)))
  }

  /** An index below `m * n` has its column below `n` and its row below `m`. */
  lemma IndexInGrid(t: int, m: int, n: int)
    requires m > 0 && n > 0 && 0 <= t < m * n
    ensures 0 <= t % n < n && 0 <= t / n < m
  {
    MulBelowIffDiv(t, n, m);
  }

  /** An input image: its size and its average colour. */
  datatype Image = Image(size: Size, avg: Rgb)

  function AvgsOf(images: seq<Image>): (r: seq<Rgb>)
    ensures |r| == |images| && forall k :: 0 <= k < |images| ==> r[k] == images[k].avg
  {
    seq(|images|, k requires 0 <= k < |images| => images[k].avg)
  }

  function SizesOf(images: seq<Image>): (r: seq<Size>)
    ensures |r| == |images| && forall k :: 0 <= k < |images| ==> r[k] == images[k].size
  {
    seq(|images|, k requires 0 <= k < |images| => images[k].size)
  }

  /** `getAverageRGB` of a target tile. `tileAvg` gives the average colour
      of a crop that holds pixels; numpy's average over an empty crop is
      NaN, written `None`. */
  function TileAverage(tileAvg: Box -> Rgb, b: Box): (r: Option<Rgb>)
    ensures r.None? <==> !NonEmpty(b)
    ensures r.Some? ==> r.value == tileAvg(b)
  {
    if NonEmpty(b) then Some(tileAvg(b)) else None
  }

  /** `createPhotomosaic` on its linear-search branch with reuse allowed:
      one output image per target tile, in tile order, each the first
      nearest input by average colour (input 0 for an empty tile), laid
      out by `createImageGrid`. */
  method CreatePhotomosaic(W: nat, H: nat, m: int, n: int, inputs: seq<Image>, tileAvg: Box -> Rgb)
    returns (output: seq<Image>, matches: seq<nat>, canvas: Size, origins: seq<Point>)
    requires m > 0 && n > 0 && |inputs| > 0
    ensures |output| == m * n && |matches| == m * n
    ensures forall t :: 0 <= t < m * n ==>
      && IsTileMatch(TileAverage(tileAvg, TileBox(W, H, m, n, t % n, t / n)), AvgsOf(inputs), matches[t])
      && output[t] == inputs[matches[t]]
    ensures W < n || H < m ==> forall t :: 0 <= t < m * n ==> matches[t] == 0
    ensures var cell := CellSize(SizesOf(output), m, n);
      canvas.width == n * cell.width && canvas.height == m * cell.height
    ensures |origins| == m * n
    ensures forall t :: 0 <= t < m * n ==>
      origins[t] == Origin(t, n, CellSize(SizesOf(output), m, n).width, CellSize(SizesOf(output), m, n).height)
    ensures forall t :: 0 <= t < m * n ==>
      && 0 <= origins[t].x && origins[t].x + output[t].size.width <= canvas.width
      && 0 <= origins[t].y && origins[t].y + output[t].size.height <= canvas.height
  {
    var targetBoxes := SplitImage(W, H, m, n);
    var avgs: seq<Rgb> := [];
    var k := 0;
    while k < |inputs|
      invariant 0 <= k <= |inputs| && avgs == AvgsOf(inputs[..k])
    {
      assert inputs[..k + 1] == inputs[..k] + [inputs[k]];
      avgs := avgs + [inputs[k].avg];
      k := k + 1;
    }
    assert inputs[..k] == inputs;
    var avgsTarget: seq<Option<Rgb>> := [];
    k := 0;
    while k < |targetBoxes|
      invariant 0 <= k <= |targetBoxes| && |avgsTarget| == k
      invariant forall t :: 0 <= t < k ==> avgsTarget[t] == TileAverage(tileAvg, targetBoxes[t])
    {
      avgsTarget := avgsTarget + [TileAverage(tileAvg, targetBoxes[k])];
      k := k + 1;
    }
    output, matches := MatchTiles(avgsTarget, inputs, avgs);
    canvas, origins := CreateImageGrid(SizesOf(output), m, n);
    if W < n || H < m {
      forall t | 0 <= t < m * n
        ensures matches[t] == 0
      {
        IndexInGrid(t, m, n);
        TileNonEmptyIff(W, H, m, n, t % n, t / n);
        assert IsTileMatch(None, AvgsOf(inputs), matches[t]);
      }
    }
  }

  /** The matching loop of `createPhotomosaic`: for every target tile, in
      order, the first input nearest to it by average colour. */
  method MatchTiles(avgsTarget: seq<Option<Rgb>>, inputs: seq<Image>, avgs: seq<Rgb>)
    returns (output: seq<Image>, matches: seq<nat>)
    requires |inputs| > 0 && avgs == AvgsOf(inputs)
    ensures |output| == |avgsTarget| && |matches| == |avgsTarget|
    ensures forall t :: 0 <= t < |avgsTarget| ==>
      IsTileMatch(avgsTarget[t], avgs, matches[t]) && output[t] == inputs[matches[t]]
  {
    output, matches := [], [];
    var k := 0;
    while k < |avgsTarget|
      invariant 0 <= k <= |avgsTarget| && |output| == k && |matches| == k
      invariant forall t :: 0 <= t < k ==>
        IsTileMatch(avgsTarget[t], avgs, matches[t]) && output[t] == inputs[matches[t]]
    {
      var matchIndex := GetBestMatchIndex(avgsTarget[k], avgs);
      output := output + [inputs[matchIndex]];
      matches := matches + [matchIndex];
      k := k + 1;
    }
  }
}
