/** The ASCII-art converter: a greyscale image of `W` by `H` pixels is cut
    into `cols` columns of tiles whose height follows the font's aspect
    `scale`, every tile's average brightness picks a character of a grey
    ramp, and the rows of characters are written one per line. Pixels are
    not modelled: the average brightness of a crop box is supplied from
    outside. */
module AsciiArt {
  import opened Arith
  import opened Wrappers

  // ---- grey ramps -----------------------------------------------------------

  /** The 70-level ramp as the script spells it: the literal parses to 69
      characters, since the `%` after `B` of the ramp the script's comment
      links to is missing. */
  const Gscale1AsWritten: string := "$@B8&WM#*oahkbdpqwmZOoQLCJUYXzcvunxrjft/\\|()1{}[]?-_+~<>i!lI;:,\"^`'. "

  /** The 70-level ramp: the script's literal with the missing `%` restored
      after `B`. Only that character is added; every other one is the
      script's. */
  const Gscale1: string := Dark + Middle + Light

  const Dark: string := "$@B%8&WM#*oahkbdpqwmZOoQLCJ"
  const Middle: string := "UYXzcvunxrjft/\\|()1{}[]?-_+"
  const Light: string := "~<>i!lI;:,\"^`'. "

  /** The 10-level ramp, darkest first. */
  const Gscale2: string := "@%#*+=-:. "

  lemma RampLengths()
    ensures |Gscale1AsWritten| == 69 && |Gscale1| == 70 && |Gscale2| == 10
  {
  }

  /** The ramp index `int((avg * top) / 255)`: true division, then
      truncation toward zero. */
  function Level(avg: int, top: int): int {
    Trunc((avg * top) as real / 255.0)
  }

  /** On a brightness in [0, 255] the index is the integer quotient and
      lies in [0, top]: 0 for black and `top` for white. */
  lemma LevelRange(avg: int, top: nat)
    requires 0 <= avg <= 255
    ensures Level(avg, top) == avg * top / 255
    ensures 0 <= Level(avg, top) <= top
    ensures avg == 0 ==> Level(avg, top) == 0
    ensures avg == 255 ==> Level(avg, top) == top
  {
    MulMono(avg, 255, top);
    TruncDiv(avg * top, 255);
    MulBelowIffDiv(avg * top, 255, top);
    if avg == 255 {
      DivModUnique(255 * top, 255, top, 0);
    }
  }

  /** A brighter tile never gets an earlier (darker) character. */
  lemma LevelMonotone(a: int, b: int, top: nat)
    requires 0 <= a <= b <= 255
    ensures Level(a, top) <= Level(b, top)
  {
    LevelRange(a, top);
    LevelRange(b, top);
    MulMono(a, b, top);
    DivMono(a * top, b * top, 255);
  }

  /** The lookup as the script writes it, with an index past the end of
      the ramp reported as `None` (Python raises `IndexError`). */
  function Lookup(ramp: string, top: int, avg: int): (c: Option<char>)
    ensures c.Some? <==> 0 <= Level(avg, top) < |ramp|
    ensures c.Some? ==> c.value == ramp[Level(avg, top)]
  {
    var k := Level(avg, top);
    if 0 <= k < |ramp| then Some(ramp[k]) else None
  }

  /** With the ramp as written, the white tile (and only it) falls off the
      end of the 70-level ramp. */
  lemma Gscale1AsWrittenOverflows(avg: int)
    requires 0 <= avg <= 255
    ensures Lookup(Gscale1AsWritten, 69, avg).None? <==> avg == 255
  {
    LevelRange(avg, 69);
    if avg < 255 {
      MulMono(avg, 254, 69);
      DivMono(avg * 69, 254 * 69, 255);
    }
  }

  /** The character for brightness `avg`: the 70-level ramp when
      `moreLevels` is set, the 10-level one otherwise. */
  function Glyph(moreLevels: bool, avg: int): (c: char)
    requires 0 <= avg <= 255
    ensures moreLevels ==> Lookup(Gscale1, 69, avg) == Some(c)
    ensures !moreLevels ==> Lookup(Gscale2, 9, avg) == Some(c)
  {
    LevelRange(avg, 69);
    LevelRange(avg, 9);
    if moreLevels then Gscale1[Level(avg, 69)] else Gscale2[Level(avg, 9)]
  }

  /** Black maps to the first character of the ramp and white to the last. */
  lemma GlyphEnds(moreLevels: bool)
    ensures Glyph(moreLevels, 0) == (if moreLevels then Gscale1[0] else Gscale2[0])
    ensures Glyph(moreLevels, 255) == (if moreLevels then Gscale1[69] else Gscale2[9])
  {
    LevelRange(0, 69);
    LevelRange(0, 9);
    LevelRange(255, 69);
    LevelRange(255, 9);
  }

  /** No ramp character is a line break, so rows stay one line each. */
  lemma GlyphNotNewline(moreLevels: bool, avg: int)
    requires 0 <= avg <= 255
    ensures Glyph(moreLevels, avg) != '\n'
  {
    RampsHaveNoNewline();
    LevelRange(avg, 69);
    LevelRange(avg, 9);
    var c := Glyph(moreLevels, avg);
    assert c in Gscale1 || c in Gscale2;
  }

  lemma RampsHaveNoNewline()
    ensures '\n' !in Gscale1 && '\n' !in Gscale2
  {
    DarkHasNoNewline();
    MiddleHasNoNewline();
    LightHasNoNewline();
  }

  lemma DarkHasNoNewline() ensures '\n' !in Dark {}
  lemma MiddleHasNoNewline() ensures '\n' !in Middle {}
  lemma LightHasNoNewline() ensures '\n' !in Light {}

  // ---- tiles ----------------------------------------------------------------

  /** A crop box `(x1, y1, x2, y2)`. */
  datatype Box = Box(x1: int, y1: int, x2: int, y2: int)

  /** The number of iterations of Python's `range(k)`. */
  function RangeLen(k: int): nat {
    if k > 0 then k else 0
  }

  /** The tile width `w = W / cols`. */
  function TileWidth(W: nat, cols: int): real
    requires cols != 0
  {
    W as real / cols as real
  }

  /** The tile height `h = w / scale`. */
  function TileHeight(W: nat, cols: int, scale: real): real
    requires cols != 0 && scale != 0.0
  {
    TileWidth(W, cols) / scale
  }

  /** The number of rows `int(H / h)`; the script divides by zero when `h`
      is 0. */
  function Rows(W: nat, H: nat, cols: int, scale: real): int
    requires W > 0 && cols != 0 && scale != 0.0
  {
    Trunc(H as real / TileHeight(W, cols, scale))
  }

  /** Tile `k` of `count` along an axis of length `edge` with tiles of
      length `size`: it runs from `int(k * size)` to `int((k + 1) * size)`,
      except that the last one is stretched to the edge. */
  function Span(k: int, size: real, count: int, edge: int): (int, int) {
    (Trunc(k as real * size), if k == count - 1 then edge else Trunc((k + 1) as real * size))
  }

  /** The box of the tile in column `i` of the row of tiles that runs from
      `y1` to `y2`. */
  function ColBox(W: nat, cols: int, i: int, y1: int, y2: int): Box
    requires cols != 0
  {
    var x := Span(i, TileWidth(W, cols), cols, W);
    Box(x.0, y1, x.1, y2)
  }

  /** The box of the tile in column `i` and row `j`. */
  function Tile(W: nat, H: nat, cols: int, scale: real, i: int, j: int): Box
    requires W > 0 && cols != 0 && scale != 0.0
  {
    var y := Span(j, TileHeight(W, cols, scale), Rows(W, H, cols, scale), H);
    ColBox(W, cols, i, y.0, y.1)
  }

  /** A crop box that holds at least one pixel. The average of an empty
      crop is NaN, and `int` of NaN raises `ValueError`. */
  predicate NonEmpty(b: Box) {
    b.x1 < b.x2 && b.y1 < b.y2
  }

  /** The spans along an axis partition [0, edge): the first starts at 0,
      the last ends at the edge, each ends where the next starts, and each
      lies inside the axis with its ends in order. */
  lemma SpanPartition(size: real, count: int, edge: int, k: int)
    requires size > 0.0 && count >= 1 && edge >= 0 && 0 <= k < count
    requires (count - 1) as real * size <= edge as real
    ensures 0 <= Span(k, size, count, edge).0 <= Span(k, size, count, edge).1 <= edge
    ensures k == 0 ==> Span(k, size, count, edge).0 == 0
    ensures k == count - 1 ==> Span(k, size, count, edge).1 == edge
    ensures k < count - 1 ==> Span(k, size, count, edge).1 == Span(k + 1, size, count, edge).0
  {
    SpanStart(size, count, edge, k);
    if k < count - 1 {
      SpanStart(size, count, edge, k + 1);
      MulMonoReal(k as real, (k + 1) as real, size);
      TruncMono(k as real * size, (k + 1) as real * size);
    }
  }

  /** Every span starts inside the axis, the first one at 0. */
  lemma SpanStart(size: real, count: int, edge: int, k: int)
    requires size > 0.0 && edge >= 0 && 0 <= k < count
    requires (count - 1) as real * size <= edge as real
    ensures 0 <= Trunc(k as real * size) <= edge
    ensures k == 0 ==> Trunc(k as real * size) == 0
  {
    MulMonoReal(0.0, k as real, size);
    MulMonoReal(k as real, (count - 1) as real, size);
    TruncBounds(k as real * size, 0, edge);
  }

  /** The column tiles partition [0, W). */
  lemma ColumnsPartition(W: nat, cols: int, i: int)
    requires W > 0 && cols > 0 && 0 <= i < cols
    ensures var x := Span(i, TileWidth(W, cols), cols, W);
      && 0 <= x.0 <= x.1 <= W
      && (i == 0 ==> x.0 == 0)
      && (i == cols - 1 ==> x.1 == W)
      && (i < cols - 1 ==> x.1 == Span(i + 1, TileWidth(W, cols), cols, W).0)
  {
    var w := TileWidth(W, cols);
    assert cols as real * w == W as real;
    MulMonoReal((cols - 1) as real, cols as real, w);
    SpanPartition(w, cols, W, i);
  }

  /** The row tiles partition [0, H), the last one stretched to the bottom
      edge. */
  lemma RowsPartition(W: nat, H: nat, cols: int, scale: real, j: int)
    requires W > 0 && cols > 0 && scale > 0.0 && 0 <= j < Rows(W, H, cols, scale)
    ensures var rows := Rows(W, H, cols, scale);
      var y := Span(j, TileHeight(W, cols, scale), rows, H);
      && 0 <= y.0 <= y.1 <= H
      && (j == 0 ==> y.0 == 0)
      && (j == rows - 1 ==> y.1 == H)
      && (j < rows - 1 ==> y.1 == Span(j + 1, TileHeight(W, cols, scale), rows, H).0)
  {
    var h := TileHeight(W, cols, scale);
    var rows := Rows(W, H, cols, scale);
    assert h > 0.0;
    var q := H as real / h;
    assert q * h == H as real;
    assert rows as real <= q;
    MulMonoReal(rows as real, q, h);
    MulMonoReal((rows - 1) as real, rows as real, h);
    SpanPartition(h, rows, H, j);
  }

  /** A span of length at least 1 along an axis that holds all `count` of
      them is never empty. */
  lemma SpanNonEmpty(size: real, count: int, edge: int, k: int)
    requires size >= 1.0 && 0 <= k < count && count as real * size <= edge as real
    ensures Span(k, size, count, edge).0 < Span(k, size, count, edge).1
  {
    var lo := k as real * size;
    var x := Span(k, size, count, edge);
    assert x.0 == Trunc(lo);
    MulMonoReal(0.0, k as real, size);
    SuccTimes(k, size);
    if k < count - 1 {
      assert x.1 == Trunc((k + 1) as real * size);
      InnerSpanNonEmpty(lo, size);
    } else {
      assert x.1 == edge && k + 1 == count;
      LastSpanNonEmpty(lo, size, edge);
    }
  }

  lemma InnerSpanNonEmpty(lo: real, size: real)
    requires lo >= 0.0 && size >= 1.0
    ensures Trunc(lo) < Trunc(lo + size)
  {
    TruncMono(lo + 1.0, lo + size);
    TruncSucc(lo);
  }

  lemma LastSpanNonEmpty(lo: real, size: real, edge: int)
    requires lo >= 0.0 && size >= 1.0 && lo + size <= edge as real
    ensures Trunc(lo) < edge
  {
    TruncBounds(lo, 0, edge - 1);
  }

  lemma SuccTimes(k: int, size: real)
    ensures (k + 1) as real * size == k as real * size + size
  {
  }

  /** With at most one column per pixel and tiles at least one pixel high,
      every tile holds a pixel. */
  lemma TileNonEmpty(W: nat, H: nat, cols: int, scale: real, i: int, j: int)
    requires 0 < cols <= W && scale > 0.0 && TileHeight(W, cols, scale) >= 1.0
    requires 0 <= i < cols && 0 <= j < Rows(W, H, cols, scale)
    ensures NonEmpty(Tile(W, H, cols, scale, i, j))
  {
    var w := TileWidth(W, cols);
    assert cols as real * w == W as real;
    assert w >= 1.0 by {
      if w < 1.0 {
        MulMonoReal(w, 1.0, cols as real);
      }
    }
    SpanNonEmpty(w, cols, W, i);
    var h := TileHeight(W, cols, scale);
    var rows := Rows(W, H, cols, scale);
    var q := H as real / h;
    assert q * h == H as real;
    MulMonoReal(rows as real, q, h);
    SpanNonEmpty(h, rows, H, j);
  }

  /** So under those conditions no tile of the grid is empty, and the
      conversion does not fail. */
  lemma ConversionSucceeds(W: nat, H: nat, cols: int, scale: real)
    requires 0 < cols <= W && scale > 0.0 && TileHeight(W, cols, scale) >= 1.0
    ensures !exists j, i ::
      (0 <= j < RangeLen(Rows(W, H, cols, scale)) && 0 <= i < RangeLen(cols) && !NonEmpty(Tile(W, H, cols, scale, i, j)))
  {
    forall j, i | 0 <= j < RangeLen(Rows(W, H, cols, scale)) && 0 <= i < RangeLen(cols)
      ensures NonEmpty(Tile(W, H, cols, scale, i, j))
    {
      TileNonEmpty(W, H, cols, scale, i, j);
    }
  }

  /** With more columns than pixels the first tile is empty, so a picture
      with at least one row cannot be converted. */
  lemma NarrowColumnsEmpty(W: nat, H: nat, cols: int, scale: real)
    requires W > 0 && cols > W && scale != 0.0 && Rows(W, H, cols, scale) >= 1
    ensures !NonEmpty(Tile(W, H, cols, scale, 0, 0))
  {
    var w := TileWidth(W, cols);
    FracBelowOne(W as real, cols as real);
    assert Trunc(0 as real * w) == 0;
    assert Trunc((0 + 1) as real * w) == 0;
  }

  /** Every tile of the grid is a well-formed box inside the image. */
  lemma TileInside(W: nat, H: nat, cols: int, scale: real, i: int, j: int)
    requires W > 0 && cols > 0 && scale > 0.0 && 0 <= i < cols && 0 <= j < Rows(W, H, cols, scale)
    ensures var b := Tile(W, H, cols, scale, i, j);
      0 <= b.x1 <= b.x2 <= W && 0 <= b.y1 <= b.y2 <= H
  {
    ColumnsPartition(W, cols, i);
    RowsPartition(W, H, cols, scale, j);
  }

  // ---- building the picture -------------------------------------------------

  /** `row` holds, for every column tile of the row running from `y1` to
      `y2`, the ramp character of its truncated average brightness; every
      one of those tiles holds a pixel. */
  ghost predicate RowMatches(row: string, W: nat, cols: int, moreLevels: bool, tileAvg: Box -> real, y1: int, y2: int)
    requires cols != 0
    requires forall b :: NonEmpty(b) ==> 0.0 <= tileAvg(b) <= 255.0
  {
    && |row| == RangeLen(cols)
    && forall i :: 0 <= i < |row| ==>
      var b := ColBox(W, cols, i, y1, y2);
      NonEmpty(b) && row[i] == Glyph(moreLevels, Trunc(tileAvg(b)))
  }

  /** The conversion loops: one string per row of tiles, one character per
      tile, each the ramp character of the tile's truncated average
      brightness. `tileAvg` is the average brightness of a crop of the
      greyscale image, which lies in [0, 255] for a crop that holds a
      pixel. The script raises on the first empty tile; the result is then
      `None`. */
  method Convert(W: nat, H: nat, cols: int, scale: real, moreLevels: bool, tileAvg: Box -> real)
    returns (aimg: Option<seq<string>>)
    requires W > 0 && cols != 0 && scale != 0.0
    requires forall b :: NonEmpty(b) ==> 0.0 <= tileAvg(b) <= 255.0
    ensures aimg.None? <==> exists j, i ::
      (0 <= j < RangeLen(Rows(W, H, cols, scale)) && 0 <= i < RangeLen(cols) && !NonEmpty(Tile(W, H, cols, scale, i, j)))
    ensures aimg.Some? ==> |aimg.value| == RangeLen(Rows(W, H, cols, scale))
    ensures aimg.Some? ==> forall j :: 0 <= j < |aimg.value| ==> |aimg.value[j]| == RangeLen(cols)
    ensures aimg.Some? ==> forall j, i {:trigger aimg.value[j][i]} :: 0 <= j < |aimg.value| && 0 <= i < |aimg.value[j]| ==>
      NonEmpty(Tile(W, H, cols, scale, i, j))
      && aimg.value[j][i] == Glyph(moreLevels, Trunc(tileAvg(Tile(W, H, cols, scale, i, j))))
  {
    var w := W as real / cols as real;
    var h := w / scale;
    var rows := Trunc(H as real / h);
    assert w == TileWidth(W, cols) && h == TileHeight(W, cols, scale) && rows == Rows(W, H, cols, scale);
    var img := [];
    var j := 0;
    while j < rows
      invariant 0 <= j && (rows > 0 ==> j <= rows) && (rows <= 0 ==> j == 0)
      invariant |img| == j
      invariant forall r :: 0 <= r < j ==>
        RowMatches(img[r], W, cols, moreLevels, tileAvg, Span(r, h, rows, H).0, Span(r, h, rows, H).1)
    {
      var y := Span(j, h, rows, H);
      var row := ConvertRow(W, cols, moreLevels, tileAvg, y.0, y.1);
      if row.None? {
        ghost var i :| 0 <= i < RangeLen(cols) && !NonEmpty(ColBox(W, cols, i, y.0, y.1));
        assert !NonEmpty(Tile(W, H, cols, scale, i, j));
        return None;
      }
      img := img + [row.value];
      j := j + 1;
    }
    RowsAreTiles(img, W, H, cols, scale, moreLevels, tileAvg);
    aimg := Some(img);
  }

  /** Rows that match their vertical spans hold the characters of the grid's
      tiles, and every tile of the grid holds a pixel. */
  lemma RowsAreTiles(aimg: seq<string>, W: nat, H: nat, cols: int, scale: real, moreLevels: bool, tileAvg: Box -> real)
    requires W > 0 && cols != 0 && scale != 0.0
    requires forall b :: NonEmpty(b) ==> 0.0 <= tileAvg(b) <= 255.0
    requires |aimg| == RangeLen(Rows(W, H, cols, scale))
    requires forall r :: 0 <= r < |aimg| ==>
      var y := Span(r, TileHeight(W, cols, scale), Rows(W, H, cols, scale), H);
      RowMatches(aimg[r], W, cols, moreLevels, tileAvg, y.0, y.1)
    ensures forall j :: 0 <= j < |aimg| ==> |aimg[j]| == RangeLen(cols)
    ensures forall j, i :: 0 <= j < |aimg| && 0 <= i < RangeLen(cols) ==> NonEmpty(Tile(W, H, cols, scale, i, j))
    ensures forall j, i {:trigger aimg[j][i]} :: 0 <= j < |aimg| && 0 <= i < |aimg[j]| ==>
      NonEmpty(Tile(W, H, cols, scale, i, j))
      && aimg[j][i] == Glyph(moreLevels, Trunc(tileAvg(Tile(W, H, cols, scale, i, j))))
  {
  }

  /** The inner loop of the conversion: the characters of the row of tiles
      that runs from `y1` to `y2`, appended column by column, or `None` at
      the first empty tile. */
  method ConvertRow(W: nat, cols: int, moreLevels: bool, tileAvg: Box -> real, y1: int, y2: int)
    returns (row: Option<string>)
    requires cols != 0
    requires forall b :: NonEmpty(b) ==> 0.0 <= tileAvg(b) <= 255.0
    ensures row.None? <==> exists i :: 0 <= i < RangeLen(cols) && !NonEmpty(ColBox(W, cols, i, y1, y2))
    ensures row.Some? ==> RowMatches(row.value, W, cols, moreLevels, tileAvg, y1, y2)
  {
    var w := W as real / cols as real;
    assert w == TileWidth(W, cols);
    var s := "";
    var i := 0;
    while i < cols
      invariant 0 <= i && (cols > 0 ==> i <= cols) && (cols <= 0 ==> i == 0)
      invariant |s| == i
      invariant forall c :: 0 <= c < i ==>
        var b := ColBox(W, cols, c, y1, y2);
        NonEmpty(b) && s[c] == Glyph(moreLevels, Trunc(tileAvg(b)))
    {
      var x := Span(i, w, cols, W);
      var b := Box(x.0, y1, x.1, y2);
      assert b == ColBox(W, cols, i, y1, y2);
      if !(x.0 < x.1 && y1 < y2) {
        return None;
      }
      var avg := Trunc(tileAvg(b));
      var gsval := Glyph(moreLevels, avg);
      s := s + [gsval];
      i := i + 1;
    }
    row := Some(s);
  }

  // ---- writing the picture --------------------------------------------------

  /** The text of the output file: every row followed by a line break. */
  function Join(rows: seq<string>): string {
    if |rows| == 0 then "" else rows[0] + "\n" + Join(rows[1..])
  }

  /** Writing one more row extends the text by that row and a line break. */
  lemma {:induction false} JoinAppend(rows: seq<string>, row: string)
    ensures Join(rows + [row]) == Join(rows) + row + "\n"
  {
    if |rows| == 0 {
      assert rows + [row] == [row];
    } else {
      var all := rows + [row];
      assert all[0] == rows[0] && all[1..] == rows[1..] + [row];
      JoinAppend(rows[1..], row);
      calc {
        Join(all);
        all[0] + "\n" + Join(all[1..]);
        rows[0] + "\n" + (Join(rows[1..]) + row + "\n");
        (rows[0] + "\n" + Join(rows[1..])) + row + "\n";
      }
    }
  }

  /** The output loop `f.write(row + '\n')` for every row, in order. */
  method Serialise(aimg: seq<string>) returns (text: string)
    ensures text == Join(aimg)
  {
    text := "";
    var k := 0;
    while k < |aimg|
      invariant 0 <= k <= |aimg| && text == Join(aimg[..k])
    {
      assert aimg[..k + 1] == aimg[..k] + [aimg[k]];
      JoinAppend(aimg[..k], aimg[k]);
      text := text + aimg[k] + "\n";
      k := k + 1;
    }
    assert aimg[..k] == aimg;
  }

  /** The index of the first line break of `text`, or its length. */
  function LineEnd(text: string): (k: nat)
    ensures k <= |text|
    ensures forall c :: 0 <= c < k ==> text[c] != '\n'
    ensures k < |text| ==> text[k] == '\n'
  {
    if |text| == 0 || text[0] == '\n' then 0 else 1 + LineEnd(text[1..])
  }

  /** The lines of a text, each without its line break, as read back from
      the file. */
  function Lines(text: string): seq<string>
    decreases |text|
  {
    if |text| == 0 then []
    else
      var k := LineEnd(text);
      if k == |text| then [text] else [text[..k]] + Lines(text[k + 1..])
  }

  /** A row without line breaks ends at its own length. */
  lemma {:induction false} LineEndOfRow(row: string, rest: string)
    requires forall c :: 0 <= c < |row| ==> row[c] != '\n'
    ensures LineEnd(row + "\n" + rest) == |row|
  {
    if |row| > 0 {
      assert (row + "\n" + rest)[1..] == row[1..] + "\n" + rest;
      LineEndOfRow(row[1..], rest);
    }
  }

  /** Reading the file back gives the rows that were written, provided no
      row holds a line break. */
  lemma {:induction false} LinesOfJoin(rows: seq<string>)
    requires forall r, c :: 0 <= r < |rows| && 0 <= c < |rows[r]| ==> rows[r][c] != '\n'
    ensures Lines(Join(rows)) == rows
  {
    if |rows| > 0 {
      var text := Join(rows);
      var rest := Join(rows[1..]);
      assert text == rows[0] + "\n" + rest;
      LineEndOfRow(rows[0], rest);
      assert text[..|rows[0]|] == rows[0];
      assert text[|rows[0]| + 1..] == rest;
      LinesOfJoin(rows[1..]);
    }
  }

  /** The text holds one line break per row when no row holds one. */
  lemma {:induction false} JoinNewlines(rows: seq<string>)
    requires forall r, c :: 0 <= r < |rows| && 0 <= c < |rows[r]| ==> rows[r][c] != '\n'
    ensures multiset(Join(rows))['\n'] == |rows|
  {
    if |rows| > 0 {
      assert '\n' !in multiset(rows[0]);
      JoinNewlines(rows[1..]);
      assert Join(rows) == rows[0] + "\n" + Join(rows[1..]);
    }
  }

  /** The character of an average brightness in [0, 255] is no line break. */
  lemma AverageGlyphNotNewline(moreLevels: bool, avg: real)
    requires 0.0 <= avg <= 255.0
    ensures Glyph(moreLevels, Trunc(avg)) != '\n'
  {
    TruncBounds(avg, 0, 255);
    GlyphNotNewline(moreLevels, Trunc(avg));
  }

  /** The converted picture reads back row for row and has one line break
      per row. */
  lemma PictureReadsBack(moreLevels: bool, aimg: seq<string>, W: nat, H: nat, cols: int, scale: real, tileAvg: Box -> real)
    requires W > 0 && cols != 0 && scale != 0.0
    requires forall b :: NonEmpty(b) ==> 0.0 <= tileAvg(b) <= 255.0
    requires forall j, i {:trigger aimg[j][i]} :: 0 <= j < |aimg| && 0 <= i < |aimg[j]| ==>
      NonEmpty(Tile(W, H, cols, scale, i, j))
      && aimg[j][i] == Glyph(moreLevels, Trunc(tileAvg(Tile(W, H, cols, scale, i, j))))
    ensures Lines(Join(aimg)) == aimg
    ensures multiset(Join(aimg))['\n'] == |aimg|
  {
    forall j, i | 0 <= j < |aimg| && 0 <= i < |aimg[j]|
      ensures aimg[j][i] != '\n'
    {
      var b := Tile(W, H, cols, scale, i, j);
      var c := aimg[j][i];
      assert NonEmpty(b);
      assert c == Glyph(moreLevels, Trunc(tileAvg(b)));
      AverageGlyphNotNewline(moreLevels, tileAvg(b));
    }
    LinesOfJoin(aimg);
    JoinNewlines(aimg);
  }
}
