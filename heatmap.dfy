/**
 * The contribution heatmap: how many week columns the grid has, how the day
 * cells are padded and cut into columns of seven, and which of the five
 * palette shades a day's count gets.  The macOS and iOS apps carry the same
 * layout code; the palette is the iOS one.
 */
module Heatmap {
  import Chunked

  /** Days per column (one week). */
  const Rows := 7
  /** The grid always shows at least a year of weeks. */
  const MinColumns := 53

  /** A day of the heatmap: its date (seconds) and its contribution count. */
  datatype HeatmapCell = HeatmapCell(date: int, count: int)

  /** `columnCount(cellCount:)`: max(1, ceil(cellCount / 7)), but at least 53. */
  function ColumnCount(cellCount: int): int {
    var dataColumns := Max(1, (cellCount + Rows - 1) / Rows);
    Max(dataColumns, MinColumns)
  }

  function Max(a: int, b: int): int {
    if a >= b then a else b
  }

  /**
   * The column count is at least 53, the grid holds every cell, and it has no
   * spare column beyond the 53 minimum.
   */
  lemma ColumnCountCovers(cellCount: int)
    ensures ColumnCount(cellCount) >= MinColumns
    ensures ColumnCount(cellCount) * Rows >= cellCount
    ensures ColumnCount(cellCount) == MinColumns || (ColumnCount(cellCount) - 1) * Rows < cellCount
  {
  }

  /** The cells followed by as many zero-count cells dated `now` as the grid needs. */
  function Padded(cells: seq<HeatmapCell>, columns: int, now: int): (padded: seq<HeatmapCell>)
    ensures |padded| == Max(|cells|, columns * Rows)
    ensures padded[..|cells|] == cells
    ensures forall k :: |cells| <= k < |padded| ==> padded[k] == HeatmapCell(now, 0)
  {
    if |cells| < columns * Rows then cells + Blank(columns * Rows - |cells|, now) else cells
  }

  /** `Array(repeating: HeatmapCell(date: now, count: 0), count: n)`. */
  function Blank(n: nat, now: int): (r: seq<HeatmapCell>)
    ensures |r| == n && forall k :: 0 <= k < n ==> r[k] == HeatmapCell(now, 0)
  {
    if n == 0 then [] else [HeatmapCell(now, 0)] + Blank(n - 1, now)
  }

  /**
   * `reshape(cells:columns:)`: pad, then take the slices starting at 0, 7,
   * 14, ... below the padded length, each up to 7 cells long.
   */
  function Reshape(cells: seq<HeatmapCell>, columns: int, now: int): seq<seq<HeatmapCell>> {
    var padded := Padded(cells, columns, now);
    var n := |padded|;
    seq((n + Rows - 1) / Rows, i requires 0 <= i < (n + Rows - 1) / Rows =>
      padded[i * Rows..if i * Rows + Rows <= n then i * Rows + Rows else n])
  }

  /** The stride-and-slice of `reshape` is the chunking of the padded cells into sevens. */
  lemma {:induction false} ReshapeIsChunks(cells: seq<HeatmapCell>, columns: int, now: int)
    ensures Reshape(cells, columns, now) == Chunked.Chunks(Padded(cells, columns, now), Rows)
  {
    var padded := Padded(cells, columns, now);
    var r := Reshape(cells, columns, now);
    var c := Chunked.Chunks(padded, Rows);
    Chunked.ChunksPartition(padded, Rows);
    assert |r| == |c|;
    forall i | 0 <= i < |r| ensures r[i] == c[i] {
      Chunked.ChunkAt(padded, Rows, i);
      assert i * Rows + Rows == (i + 1) * Rows;
    }
  }

  /**
   * Reshaping keeps the cells, in order, as a prefix of the grid and pads
   * with empty days only up to `columns` weeks, never dropping a cell; the
   * columns hold the padded days in order, at most seven each and exactly
   * seven in all but the last.
   */
  lemma ReshapePartition(cells: seq<HeatmapCell>, columns: int, now: int)
    ensures Chunked.Flatten(Reshape(cells, columns, now)) == Padded(cells, columns, now)
    ensures Padded(cells, columns, now)[..|cells|] == cells
    ensures |Padded(cells, columns, now)| == Max(|cells|, columns * Rows)
    ensures var grid := Reshape(cells, columns, now);
            && (forall j :: 0 <= j < |grid| ==> 0 < |grid[j]| <= Rows)
            && (forall j :: 0 <= j < |grid| - 1 ==> |grid[j]| == Rows)
  {
    ReshapeIsChunks(cells, columns, now);
    Chunked.ChunksPartition(Padded(cells, columns, now), Rows);
  }

  /**
   * With the column count `columnCount` gives, the grid is exactly that many
   * full weeks.
   */
  lemma ReshapeFullGrid(cells: seq<HeatmapCell>, now: int)
    ensures var columns := ColumnCount(|cells|);
            var grid := Reshape(cells, columns, now);
            |grid| == columns && forall j :: 0 <= j < |grid| ==> |grid[j]| == Rows
  {
    var columns := ColumnCount(|cells|);
    ColumnCountCovers(|cells|);
    assert |Padded(cells, columns, now)| == columns * Rows;
    assert (columns * Rows + Rows - 1) / Rows == columns;
    ReshapePartition(cells, columns, now);
  }

  // ---------------------------------------------------------------------------
  // Palette

  /** `bucketIndex(for:)`: 0 for none, then 1-3, 4-7, 8-12 and above (or negative). */
  function BucketIndex(count: int): (bucket: int)
    ensures 0 <= bucket < 5
  {
    if count == 0 then 0
    else if 1 <= count <= 3 then 1
    else if 4 <= count <= 7 then 2
    else if 8 <= count <= 12 then 3
    else 4
  }

  /** More contributions never give a lighter shade, and only a zero count gets the empty one. */
  lemma BucketIndexMonotone(a: int, b: int)
    requires 0 <= a <= b
    ensures BucketIndex(a) <= BucketIndex(b)
    ensures BucketIndex(a) == 0 <==> a == 0
  {
  }

  /** `AccentTone`. */
  datatype AccentTone = GithubGreen | System

  /** A shade of the palette: the empty-cell colour, an RGB colour or the accent colour, with an opacity. */
  datatype Shade = Empty | Rgb(red: real, green: real, blue: real, opacity: real) | Accent(opacity: real)

  /** `palette(accentTone:)`: the empty shade, then four shades of rising opacity. */
  function Palette(tone: AccentTone): (shades: seq<Shade>)
    ensures |shades| == 5 && shades[0] == Empty
    ensures forall j :: 1 <= j < 5 ==> !shades[j].Empty?
  {
    match tone
    case GithubGreen =>
      [Empty,
       Rgb(0.74, 0.86, 0.75, 0.8),
       Rgb(0.56, 0.76, 0.6, 0.85),
       Rgb(0.3, 0.62, 0.38, 0.9),
       Rgb(0.18, 0.46, 0.24, 0.95)]
    case System =>
      [Empty, Accent(0.25), Accent(0.4), Accent(0.55), Accent(0.7)]
  }

  /**
   * Every count picks a shade of either palette; the shade is the empty one
   * exactly for a zero count, and higher counts get shades at least as opaque.
   */
  lemma PaletteShade(tone: AccentTone, a: int, b: int)
    requires 0 <= a <= b
    ensures 0 <= BucketIndex(a) < |Palette(tone)|
    ensures Palette(tone)[BucketIndex(a)].Empty? <==> a == 0
    ensures a > 0 ==> Palette(tone)[BucketIndex(a)].opacity <= Palette(tone)[BucketIndex(b)].opacity
  {
    BucketIndexMonotone(a, b);
  }
}
