/**
 * `add_watermark` (utils.py): a grid of rotated, half-transparent text tiles is
 * pasted onto a transparent overlay the size of the image, the overlay is
 * alpha-composited over the image, and the result is saved without alpha.
 *
 * Pixels are not modelled. The measured text box is an input (`measure`, the
 * width and height of `textbbox` for the chosen text and font), and the overlay
 * is the sequence of tile placements `(x, y, rotation)` in paste order.
 */
module Watermark {
  import opened Options

  const DefaultText: string := "DO NOT USE FOR AI TRAINING"

  /** The text drawn on every tile: the caller's text unless it is `None` or empty. */
  function WatermarkText(given: Option<string>): (text: string)
    ensures text != ""
    ensures Truthy(given) ==> text == given.value
    ensures !Truthy(given) ==> text == DefaultText
  {
    if Truthy(given) then given.value else DefaultText
  }

  datatype Font = TrueType(file: string, size: nat) | BuiltinDefault

  /** `ImageFont.truetype("arial.ttf", 36)`, or Pillow's built-in font when that raises `IOError`. */
  function LoadFont(arialLoads: bool): (font: Font)
    ensures font.TrueType? <==> arialLoads
    ensures font.TrueType? ==> font.file == "arial.ttf" && font.size == 36
  {
    if arialLoads then TrueType("arial.ttf", 36) else BuiltinDefault
  }

  // ---------------------------------------------------------------------
  // Grid arithmetic

  /** `text_width * 3`, an integer. */
  function SpacingX(textWidth: nat): (spacing: nat)
    ensures spacing % 3 == 0 && spacing / 3 == textWidth
  {
    textWidth * 3
  }

  /** `text_height * 2.5`, a float in Python and exact here. */
  function SpacingY(textHeight: nat): (spacing: real)
    ensures 2.0 * spacing == (5 * textHeight) as real
  {
    textHeight as real * 2.5
  }

  /** The ceiling of `a / b`: the number of `b`-wide steps needed to reach `a`. */
  function CeilDiv(a: nat, b: nat): nat
    requires b > 0
    decreases a
  {
    if a == 0 then 0 else if a <= b then 1 else 1 + CeilDiv(a - b, b)
  }

  /** `CeilDiv(a, b)` is the least `q` with `q * b >= a`. */
  lemma {:induction false} CeilDivBounds(a: nat, b: nat)
    requires b > 0
    ensures CeilDiv(a, b) * b >= a && (CeilDiv(a, b) - 1) * b < a
    decreases a
  {
    if a > b {
      CeilDivBounds(a - b, b);
      var q := CeilDiv(a - b, b);
      assert (1 + q) * b == q * b + b;
      assert q * b == (q - 1) * b + b;
    }
  }

  /** `math.ceil(img.width / spacing_x) + 2`. */
  function NumX(width: nat, textWidth: nat): nat
    requires textWidth > 0
  {
    CeilDiv(width, SpacingX(textWidth)) + 2
  }

  /** `num_x` is the ceiling of `W / spacing_x` plus two extra columns. */
  lemma NumXBounds(width: nat, textWidth: nat)
    requires textWidth > 0
    ensures (NumX(width, textWidth) - 2) * SpacingX(textWidth) >= width
    ensures (NumX(width, textWidth) - 3) * SpacingX(textWidth) < width
  {
    CeilDivBounds(width, SpacingX(textWidth));
  }

  /**
   * `math.ceil(img.height / spacing_y) + 6`. The quotient of two exactly
   * represented floats is the correctly rounded quotient, and no quotient
   * `2H / 5h` of image-sized integers lies within rounding distance of an
   * integer it does not equal, so the float ceiling is the exact one.
   */
  function NumY(height: nat, textHeight: nat): nat
    requires textHeight > 0
  {
    CeilDiv(2 * height, 5 * textHeight) + 6
  }

  /** `num_y` is the ceiling of `H / spacing_y` plus six extra rows. */
  lemma NumYBounds(height: nat, textHeight: nat)
    requires textHeight > 0
    ensures (NumY(height, textHeight) - 6) as real * SpacingY(textHeight) >= height as real
    ensures (NumY(height, textHeight) - 7) as real * SpacingY(textHeight) < height as real
  {
    var q := CeilDiv(2 * height, 5 * textHeight);
    CeilDivBounds(2 * height, 5 * textHeight);
    RealProduct(q, 5 * textHeight);
    RealProduct(q as int - 1, 5 * textHeight);
  }

  lemma RealProduct(a: int, b: int)
    ensures (a * b) as real == a as real * b as real
  {
  }

  /** Python's `int()` of a float: truncation toward zero. */
  function Trunc(r: real): int {
    if r >= 0.0 then r.Floor else -((-r).Floor)
  }

  /** `int(i * spacing_y - text_height)`, the y of every tile in row `i`. */
  function RowY(i: int, textHeight: nat): int {
    Trunc(i as real * SpacingY(textHeight) - textHeight as real)
  }

  /** Truncating the row anchor is the floor of `(5ih - 2h) / 2`: only row 0 is negative, and it is exact. */
  lemma RowYIsFloor(i: nat, textHeight: nat)
    ensures RowY(i, textHeight) == (5 * (i * textHeight) - 2 * textHeight) / 2
  {
    var a := 5 * (i * textHeight) - 2 * textHeight;
    RowYAnchor(i, textHeight);
    if i == 0 {
      assert a == -2 * textHeight;
    } else {
      MulAtLeast(i, textHeight);
      HalfFloor(a);
    }
  }

  /** The row anchor `i * spacing_y - text_height` is exactly `(5ih - 2h) / 2`. */
  lemma RowYAnchor(i: nat, textHeight: nat)
    ensures i as real * SpacingY(textHeight) - textHeight as real
      == (5 * (i * textHeight) - 2 * textHeight) as real / 2.0
  {
    RealProduct(i, textHeight);
    ScaleByHalves(i as real, textHeight as real);
  }

  lemma ScaleByHalves(x: real, y: real)
    ensures x * (y * 2.5) == 2.5 * (x * y)
  {
  }

  lemma MulAtLeast(i: nat, n: nat)
    requires i >= 1
    ensures i * n >= n
  {
    assert i * n == (i - 1) * n + n;
  }

  lemma HalfFloor(a: nat)
    ensures (a as real / 2.0).Floor == a / 2
  {
    var q, r := a / 2, a % 2;
    assert a as real / 2.0 == q as real + r as real / 2.0;
  }

  datatype Placement = Placement(x: int, y: int, rotation: int)

  /** The three tiles of grid cell `(i, j)`: +30°, -30° and +30°, one text width apart. */
  function Cell(i: int, j: int, textWidth: nat, textHeight: nat): seq<Placement> {
    var spacingX := SpacingX(textWidth);
    var baseX := j * spacingX - textWidth;
    var y := RowY(i, textHeight);
    [ Placement(baseX, y, 30),
      Placement(baseX + spacingX / 3, y, -30),
      Placement(baseX + 2 * (spacingX / 3), y, 30) ]
  }

  /** The concatenation of `blocks`, first to last. */
  function Flatten<T>(blocks: seq<seq<T>>): seq<T> {
    if blocks == [] then [] else Flatten(blocks[..|blocks| - 1]) + blocks[|blocks| - 1]
  }

  function CellBlocks(i: int, columns: nat, textWidth: nat, textHeight: nat): (blocks: seq<seq<Placement>>)
    ensures |blocks| == columns
    ensures forall j :: 0 <= j < columns ==> blocks[j] == Cell(i, j, textWidth, textHeight)
  {
    seq(columns, j => Cell(i, j, textWidth, textHeight))
  }

  /** Cells `(i, 0)` to `(i, columns - 1)` in paste order. */
  function Row(i: int, columns: nat, textWidth: nat, textHeight: nat): seq<Placement> {
    Flatten(CellBlocks(i, columns, textWidth, textHeight))
  }

  function RowBlocks(rows: nat, columns: nat, textWidth: nat, textHeight: nat): (blocks: seq<seq<Placement>>)
    ensures |blocks| == rows
    ensures forall r :: 0 <= r < rows ==> blocks[r] == Row(r, columns, textWidth, textHeight)
  {
    seq(rows, r => Row(r, columns, textWidth, textHeight))
  }

  /** Rows `0` to `rows - 1` in paste order. */
  function Rows(rows: nat, columns: nat, textWidth: nat, textHeight: nat): seq<Placement> {
    Flatten(RowBlocks(rows, columns, textWidth, textHeight))
  }

  /** Every placement the nested loop of `add_watermark` pastes, in order. */
  function Grid(width: nat, height: nat, textWidth: nat, textHeight: nat): seq<Placement>
    requires textWidth > 0 && textHeight > 0
  {
    Rows(NumY(height, textHeight), NumX(width, textWidth), textWidth, textHeight)
  }

  /** The rotation of the `m`-th tile of a row: the middle tile of each cell is the -30° one. */
  function RotationAt(m: nat): int {
    if m % 3 == 1 then -30 else 30
  }

  lemma FlattenSnoc<T>(blocks: seq<seq<T>>, last: seq<T>)
    ensures Flatten(blocks + [last]) == Flatten(blocks) + last
  {
    assert (blocks + [last])[..|blocks|] == blocks;
  }

  lemma {:induction false} FlattenLength<T>(blocks: seq<seq<T>>, n: nat)
    requires forall k :: 0 <= k < |blocks| ==> |blocks[k]| == n
    ensures |Flatten(blocks)| == |blocks| * n
  {
    if blocks != [] {
      FlattenLength(blocks[..|blocks| - 1], n);
      assert (|blocks| - 1) * n + n == |blocks| * n;
    }
  }

  lemma MulStrict(r: nat, bound: nat, n: nat, m: nat)
    requires r < bound && m < n
    ensures r * n + m < bound * n
  {
    assert (r + 1) * n <= bound * n;
  }

  /** Element `m` of block `r` sits at `r * n + m` when every block has length `n`. */
  lemma {:induction false} FlattenAt<T>(blocks: seq<seq<T>>, n: nat, r: nat, m: nat)
    requires forall k :: 0 <= k < |blocks| ==> |blocks[k]| == n
    requires r < |blocks| && m < n
    ensures r * n + m < |Flatten(blocks)| && Flatten(blocks)[r * n + m] == blocks[r][m]
  {
    var init := blocks[..|blocks| - 1];
    FlattenLength(blocks, n);
    FlattenLength(init, n);
    MulStrict(r, |blocks|, n, m);
    if r < |init| {
      MulStrict(r, |init|, n, m);
      FlattenAt(init, n, r, m);
    }
  }

  lemma RowStep(i: int, columns: nat, textWidth: nat, textHeight: nat)
    ensures Row(i, columns + 1, textWidth, textHeight)
      == Row(i, columns, textWidth, textHeight) + Cell(i, columns, textWidth, textHeight)
  {
    assert CellBlocks(i, columns + 1, textWidth, textHeight)
      == CellBlocks(i, columns, textWidth, textHeight) + [Cell(i, columns, textWidth, textHeight)];
    FlattenSnoc(CellBlocks(i, columns, textWidth, textHeight), Cell(i, columns, textWidth, textHeight));
  }

  lemma RowsStep(rows: nat, columns: nat, textWidth: nat, textHeight: nat)
    ensures Rows(rows + 1, columns, textWidth, textHeight)
      == Rows(rows, columns, textWidth, textHeight) + Row(rows, columns, textWidth, textHeight)
  {
    assert RowBlocks(rows + 1, columns, textWidth, textHeight)
      == RowBlocks(rows, columns, textWidth, textHeight) + [Row(rows, columns, textWidth, textHeight)];
    FlattenSnoc(RowBlocks(rows, columns, textWidth, textHeight), Row(rows, columns, textWidth, textHeight));
  }

  /** Row `i` holds `3 * columns` tiles at x = -w, 0, w, 2w, ... with rotations +30, -30, +30 per cell. */
  lemma RowShape(i: int, columns: nat, textWidth: nat, textHeight: nat, m: nat)
    requires m < 3 * columns
    ensures |Row(i, columns, textWidth, textHeight)| == 3 * columns
    ensures Row(i, columns, textWidth, textHeight)[m] == Placement((m - 1) * textWidth, RowY(i, textHeight), RotationAt(m))
  {
    var blocks := CellBlocks(i, columns, textWidth, textHeight);
    var j, k := m / 3, m % 3;
    assert m == j * 3 + k;
    DivBound(m, columns);
    FlattenLength(blocks, 3);
    FlattenAt(blocks, 3, j, k);
    CellAt(i, j, textWidth, textHeight, k);
  }

  lemma DivBound(m: nat, columns: nat)
    requires m < 3 * columns
    ensures m / 3 < columns
  {
  }

  /** Tile `k` of cell `(i, j)` sits `3j + k - 1` text widths from the left edge. */
  lemma CellAt(i: int, j: nat, textWidth: nat, textHeight: nat, k: nat)
    requires k < 3
    ensures Cell(i, j, textWidth, textHeight)[k]
      == Placement((j * 3 + k - 1) * textWidth, RowY(i, textHeight), RotationAt(j * 3 + k))
  {
    var spacingX := SpacingX(textWidth);
    assert spacingX == 3 * textWidth && spacingX / 3 == textWidth;
    Distribute(j, k, textWidth);
    assert RotationAt(j * 3 + k) == RotationAt(k);
  }

  lemma Distribute(j: nat, k: nat, w: nat)
    ensures (j * 3 + k - 1) * w == j * (3 * w) - w + k * w
  {
  }

  /** Tile `m` of row `r` of the first `rows` rows sits at `k = r * (3 * columns) + m`. */
  lemma RowsAt(rows: nat, columns: nat, textWidth: nat, textHeight: nat, r: nat, m: nat, k: nat)
    requires r < rows && m < 3 * columns && k == r * (3 * columns) + m
    ensures |Rows(rows, columns, textWidth, textHeight)| == rows * (3 * columns)
    ensures k < rows * (3 * columns)
    ensures Rows(rows, columns, textWidth, textHeight)[k]
      == Placement((m - 1) * textWidth, RowY(r, textHeight), RotationAt(m))
  {
    var blocks := RowBlocks(rows, columns, textWidth, textHeight);
    RowsLength(rows, columns, textWidth, textHeight);
    FlattenAt(blocks, 3 * columns, r, m);
    RowShape(r, columns, textWidth, textHeight, m);
  }

  lemma RowsLength(rows: nat, columns: nat, textWidth: nat, textHeight: nat)
    ensures var blocks := RowBlocks(rows, columns, textWidth, textHeight);
      && (forall k :: 0 <= k < |blocks| ==> |blocks[k]| == 3 * columns)
      && |Rows(rows, columns, textWidth, textHeight)| == rows * (3 * columns)
  {
    var blocks := RowBlocks(rows, columns, textWidth, textHeight);
    forall r | 0 <= r < rows ensures |blocks[r]| == 3 * columns {
      FlattenLength(CellBlocks(r, columns, textWidth, textHeight), 3);
    }
    FlattenLength(blocks, 3 * columns);
  }

  /**
   * The loop pastes `3 * num_x * num_y` tiles in row-major order: placement
   * `k` is tile `m = k % (3 * num_x)` of row `r = k / (3 * num_x)`, at
   * `((m - 1) * text_width, int(r * spacing_y - text_height))`, with rotation
   * +30° except for the middle tile of each cell, which is -30°.
   */
  lemma GridLayout(width: nat, height: nat, textWidth: nat, textHeight: nat)
    requires textWidth > 0 && textHeight > 0
    ensures var columns, rows := NumX(width, textWidth), NumY(height, textHeight);
      && |Grid(width, height, textWidth, textHeight)| == rows * (3 * columns)
      && forall k :: 0 <= k < |Grid(width, height, textWidth, textHeight)| ==>
           Grid(width, height, textWidth, textHeight)[k]
             == Placement((k % (3 * columns) - 1) * textWidth, RowY(k / (3 * columns), textHeight),
                          RotationAt(k % (3 * columns)))
  {
    RowsLayout(NumY(height, textHeight), NumX(width, textWidth), textWidth, textHeight);
  }

  /** `Rows` holds `3 * columns` tiles per row, row by row. */
  lemma RowsLayout(rows: nat, columns: nat, textWidth: nat, textHeight: nat)
    ensures |Rows(rows, columns, textWidth, textHeight)| == rows * (3 * columns)
    ensures forall k :: 0 <= k < |Rows(rows, columns, textWidth, textHeight)| ==>
      Rows(rows, columns, textWidth, textHeight)[k]
        == Placement((k % (3 * columns) - 1) * textWidth, RowY(k / (3 * columns), textHeight),
                     RotationAt(k % (3 * columns)))
  {
    var grid := Rows(rows, columns, textWidth, textHeight);
    RowsLength(rows, columns, textWidth, textHeight);
    forall k | 0 <= k < |grid|
      ensures grid[k] == Placement((k % (3 * columns) - 1) * textWidth, RowY(k / (3 * columns), textHeight),
                                   RotationAt(k % (3 * columns)))
    {
      RowsAtIndex(rows, columns, textWidth, textHeight, k);
    }
  }

  lemma RowsAtIndex(rows: nat, columns: nat, textWidth: nat, textHeight: nat, k: nat)
    requires k < rows * (3 * columns)
    ensures |Rows(rows, columns, textWidth, textHeight)| == rows * (3 * columns)
    ensures Rows(rows, columns, textWidth, textHeight)[k]
      == Placement((k % (3 * columns) - 1) * textWidth, RowY(k / (3 * columns), textHeight),
                   RotationAt(k % (3 * columns)))
  {
    DivBelow(k, rows, 3 * columns);
    RowsAt(rows, columns, textWidth, textHeight, k / (3 * columns), k % (3 * columns), k);
  }

  lemma DivBelow(k: nat, rows: nat, n: nat)
    requires k < rows * n
    ensures n > 0 && k / n < rows && k == (k / n) * n + k % n
  {
    if n == 0 {
      assert false;
    } else if k / n >= rows {
      assert false;
    }
  }

  /** The first tile is the +30° one at `(-w, -h)`: the top-left corner is covered. */
  lemma GridFirstTile(width: nat, height: nat, textWidth: nat, textHeight: nat)
    requires textWidth > 0 && textHeight > 0
    ensures |Grid(width, height, textWidth, textHeight)| > 0
    ensures Grid(width, height, textWidth, textHeight)[0] == Placement(-(textWidth as int), -(textHeight as int), 30)
  {
    var columns, rows := NumX(width, textWidth), NumY(height, textHeight);
    assert Grid(width, height, textWidth, textHeight) == Rows(rows, columns, textWidth, textHeight);
    RowsAt(rows, columns, textWidth, textHeight, 0, 0, 0);
    RowYIsFloor(0, textHeight);
  }

  /** The last tile of every row starts at least four text widths past the right edge. */
  lemma GridReachesRight(width: nat, textWidth: nat)
    requires textWidth > 0
    ensures (3 * NumX(width, textWidth) - 2) * textWidth >= width + 4 * textWidth
  {
    var columns := NumX(width, textWidth);
    NumXBounds(width, textWidth);
    assert (3 * columns - 2) * textWidth == (columns - 2) * (3 * textWidth) + 4 * textWidth;
  }

  /** The last row starts below the bottom edge. */
  lemma GridReachesBottom(height: nat, textHeight: nat)
    requires textHeight > 0
    ensures RowY(NumY(height, textHeight) - 1, textHeight) >= height
  {
    var q := CeilDiv(2 * height, 5 * textHeight);
    LastRowY(height, textHeight);
    CeilDivBounds(2 * height, 5 * textHeight);
    assert q * (5 * textHeight) == 5 * (q * textHeight);
  }

  /** The last row is five rows below the `ceil(2H / 5h)`-th one. */
  lemma LastRowY(height: nat, textHeight: nat)
    requires textHeight > 0
    ensures RowY(NumY(height, textHeight) - 1, textHeight)
      == (5 * (CeilDiv(2 * height, 5 * textHeight) * textHeight) + 23 * textHeight) / 2
  {
    var q := CeilDiv(2 * height, 5 * textHeight);
    RowYIsFloor(q + 5, textHeight);
    assert (q + 5) * textHeight == q * textHeight + 5 * textHeight;
  }

  /** Consecutive rows move strictly down, by at most three text heights. */
  lemma RowYStep(i: nat, textHeight: nat)
    requires textHeight > 0
    ensures RowY(i, textHeight) < RowY(i + 1, textHeight) <= RowY(i, textHeight) + 3 * textHeight
  {
    RowYIsFloor(i, textHeight);
    RowYIsFloor(i + 1, textHeight);
    assert (i + 1) * textHeight == i * textHeight + textHeight;
  }

  // ---------------------------------------------------------------------
  // The overlay and the paste loop

  /** The transparent full-canvas layer; its content is the list of tiles pasted onto it. */
  class Overlay {
    const width: nat
    const height: nat
    var pasted: seq<Placement>

    constructor (width: nat, height: nat)
      ensures this.width == width && this.height == height && pasted == []
    {
      this.width := width;
      this.height := height;
      pasted := [];
    }

    /** `overlay.paste(tile, (x, y), tile)`: the tile, masked by its own alpha, goes on top. */
    method Paste(p: Placement)
      modifies this
      ensures pasted == old(pasted) + [p]
    {
      pasted := pasted + [p];
    }
  }

  /** The body of the inner loop: the three pastes of cell `(i, j)`. */
  method PasteCell(overlay: Overlay, i: nat, j: nat, textWidth: nat, textHeight: nat)
    modifies overlay
    ensures overlay.pasted == old(overlay.pasted) + Cell(i, j, textWidth, textHeight)
  {
    var spacingX := SpacingX(textWidth);
    var spacingY := SpacingY(textHeight);
    var baseX := j * spacingX - textWidth;
    var y := i as real * spacingY - textHeight as real;
    assert y == i as real * SpacingY(textHeight) - textHeight as real;
    assert Trunc(y) == RowY(i, textHeight);
    var x := baseX;
    overlay.Paste(Placement(x, Trunc(y), 30));
    x := baseX + spacingX / 3;
    overlay.Paste(Placement(x, Trunc(y), -30));
    x := baseX + 2 * (spacingX / 3);
    overlay.Paste(Placement(x, Trunc(y), 30));
    assert overlay.pasted == old(overlay.pasted) + Cell(i, j, textWidth, textHeight);
  }

  /** The nested `for i` / `for j` loop: three pastes per cell, row by row. */
  method DrawGrid(overlay: Overlay, rows: nat, columns: nat, textWidth: nat, textHeight: nat)
    modifies overlay
    ensures overlay.pasted == old(overlay.pasted) + Rows(rows, columns, textWidth, textHeight)
  {
    ghost var start := overlay.pasted;
    var i := 0;
    while i < rows
      invariant 0 <= i <= rows
      invariant overlay.pasted == start + Rows(i, columns, textWidth, textHeight)
    {
      ghost var done := overlay.pasted;
      var j := 0;
      while j < columns
        invariant 0 <= j <= columns
        invariant overlay.pasted == done + Row(i, j, textWidth, textHeight)
      {
        ghost var row := Row(i, j, textWidth, textHeight);
        ghost var cell := Cell(i, j, textWidth, textHeight);
        PasteCell(overlay, i, j, textWidth, textHeight);
        assert overlay.pasted == done + row + cell;
        RowStep(i, j, textWidth, textHeight);
        assert row + cell == Row(i, j + 1, textWidth, textHeight);
        assert overlay.pasted == done + (row + cell);
        j := j + 1;
      }
      ghost var row := Row(i, columns, textWidth, textHeight);
      assert overlay.pasted == start + Rows(i, columns, textWidth, textHeight) + row;
      RowsStep(i, columns, textWidth, textHeight);
      assert overlay.pasted == start + (Rows(i, columns, textWidth, textHeight) + row);
      i := i + 1;
    }
  }

  // ---------------------------------------------------------------------
  // The whole operation

  datatype Mode = RGB | RGBA | OtherMode(name: string)

  /** A decoded image: its size, its pixel mode and the tiles composited into it so far. */
  datatype Image = Image(width: nat, height: nat, mode: Mode, tiles: seq<Placement>)

  /** The stamp image every placement uses before rotation. */
  datatype Tile = Tile(width: nat, height: nat, textX: int, textY: int, text: string, font: Font,
                       fill: (int, int, int, int))

  /** What `save` writes to the output path. */
  datatype Written = Written(image: Image, tile: Tile)

  /**
   * `Image.new('RGBA', (2w, 2h))` with the text drawn at `(w // 2, h // 2)` in
   * white at alpha 128: the anchor, and a `w x h` box from it, lie inside
   * the tile.
   */
  function TextTile(text: string, font: Font, textWidth: nat, textHeight: nat): (tile: Tile)
    ensures tile.width == 2 * textWidth && tile.height == 2 * textHeight
    ensures tile.textX == textWidth / 2 && tile.textY == textHeight / 2
    ensures 0 <= tile.textX && tile.textX + textWidth <= tile.width
    ensures 0 <= tile.textY && tile.textY + textHeight <= tile.height
    ensures tile.text == text && tile.font == font && tile.fill == (255, 255, 255, 128)
  {
    Tile(2 * textWidth, 2 * textHeight, textWidth / 2, textHeight / 2, text, font, (255, 255, 255, 128))
  }

  /** `img.convert(mode)`: same size and content. */
  function Convert(img: Image, mode: Mode): Image {
    img.(mode := mode)
  }

  /** `Image.alpha_composite(img, overlay)`: the overlay's tiles go over the image's. */
  function AlphaComposite(img: Image, overlay: Overlay): Image
    reads overlay
    requires img.mode == RGBA
  {
    Image(img.width, img.height, RGBA, img.tiles + overlay.pasted)
  }

  /**
   * `add_watermark(image_path, output_path, watermark_text)`. `source` is
   * `None` when `Image.open` fails; `measure` is `textbbox`'s width and height;
   * `saveSucceeds` says whether `save` succeeds. The result is `True` exactly
   * when an image is written; it is then the source's size, in RGB, with the
   * full grid of the chosen text in the chosen font composited on top. A zero
   * text width or height makes the count division raise, and nothing is written.
   */
  method AddWatermark(source: Option<Image>, watermarkText: Option<string>, arialLoads: bool,
                      measure: (Font, string) -> (nat, nat), saveSucceeds: bool)
    returns (ok: bool, written: Option<Written>)
    ensures ok <==> written.Some?
    ensures var text, font := WatermarkText(watermarkText), LoadFont(arialLoads);
      var box := measure(font, text);
      && (ok <==> source.Some? && box.0 > 0 && box.1 > 0 && saveSucceeds)
      && (ok ==> written.value == Written(
            Image(source.value.width, source.value.height, RGB,
                  source.value.tiles + Grid(source.value.width, source.value.height, box.0, box.1)),
            TextTile(text, font, box.0, box.1)))
  {
    if source.None? {
      return false, None;
    }
    var img := source.value;
    var overlay := new Overlay(img.width, img.height);
    var font := LoadFont(arialLoads);
    var text := WatermarkText(watermarkText);
    var box := measure(font, text);
    var textWidth, textHeight := box.0, box.1;
    var spacingX := SpacingX(textWidth);
    var spacingY := SpacingY(textHeight);
    if spacingX == 0 || spacingY == 0.0 {
      // `img.width / spacing_x` or `img.height / spacing_y` raises ZeroDivisionError
      return false, None;
    }
    var numX := NumX(img.width, textWidth);
    var numY := NumY(img.height, textHeight);
    var tile := TextTile(text, font, textWidth, textHeight);
    DrawGrid(overlay, numY, numX, textWidth, textHeight);
    if img.mode != RGBA {
      img := Convert(img, RGBA);
    }
    var watermarked := AlphaComposite(img, overlay);
    if watermarked.mode == RGBA {
      watermarked := Convert(watermarked, RGB);
    }
    if !saveSucceeds {
      return false, None;
    }
    return true, Some(Written(watermarked, tile));
  }
}
