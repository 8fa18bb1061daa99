/**
  The Connect-Four board (src/connect4/model.rs): tiles, columns of four
  tiles (index 0 at the top, 3 at the bottom), a grid of columns, rows as a
  view on the grid, and the emoji each tile is drawn with.
 */
module Connect4Model {
  import opened Wrappers

  /** `Tile`; `Default` is `Empty`. */
  datatype Tile = Empty | Cookie | Milk

  const DEFAULT_TILE: Tile := Empty

  /** The four tiles of a column, `[Tile; 4]`. */
  type ColumnTiles = s: seq<Tile> | |s| == 4 witness [Empty, Empty, Empty, Empty]

  /** `Column`: `Column::new` is the constructor and `into_inner` the field. */
  datatype Column = Column(tiles: ColumnTiles)

  /** `Grid`: a `Vec<Column>`, whose length the type does not fix. */
  datatype Grid = Grid(columns: seq<Column>)

  /** A row of a grid: the tiles at index `at` of each column. */
  datatype Row = Row(grid: Grid, at: nat)

  /** `Column::default()`. */
  function DefaultColumn(): (c: Column)
    ensures forall i :: 0 <= i < 4 ==> c.tiles[i] == DEFAULT_TILE
  {
    Column([DEFAULT_TILE, DEFAULT_TILE, DEFAULT_TILE, DEFAULT_TILE])
  }

  /** The newtype conversions of `Column` and `Grid` lose nothing, either way round. */
  lemma NewtypeRoundTrip(tiles: ColumnTiles, columns: seq<Column>, c: Column, g: Grid)
    ensures Column(tiles).tiles == tiles && Column(c.tiles) == c
    ensures Grid(columns).columns == columns && Grid(g.columns) == g
  {
  }

  /** `Row::tile_at`: the tile of column `at` in this row, if both exist. */
  function TileAt(row: Row, at: nat): (r: Option<Tile>)
    ensures r.Some? <==> at < |row.grid.columns| && row.at < 4
    ensures r.Some? ==> r.value == row.grid.columns[at].tiles[row.at]
  {
    if at < |row.grid.columns| then
      var column := row.grid.columns[at];
      if row.at < 4 then Some(column.tiles[row.at]) else None
    else None
  }

  /** `Grid::row_at`: rows 0 to 3 exist, whatever the number of columns. */
  function RowAt(g: Grid, at: nat): (r: Option<Row>)
    ensures r.Some? <==> at <= 3
    ensures r.Some? ==> r.value == Row(g, at)
  {
    if at <= 3 then Some(Row(g, at)) else None
  }

  /** `Grid::rows`: rows 0 to 3, in order. */
  function Rows(g: Grid): (rs: seq<Row>)
    ensures |rs| == 4
    ensures forall i :: 0 <= i < 4 ==> rs[i] == Row(g, i)
  {
    var xs := seq(4, i requires 0 <= i < 4 => RowAt(g, i));
    SomesPrefix(xs, 4);
    Somes(xs)
  }

  /** `Grid::col_at`. */
  function ColAt(g: Grid, at: nat): (r: Option<Column>)
    ensures r.Some? <==> at < |g.columns|
    ensures r.Some? ==> r.value == g.columns[at]
  {
    if at < |g.columns| then Some(g.columns[at]) else None
  }

  function Min(a: nat, b: nat): nat {
    if a <= b then a else b
  }

  /** `Grid::cols`: the first four columns (fewer if the grid has fewer), in order. */
  function Cols(g: Grid): (cs: seq<Column>)
    ensures cs == g.columns[..Min(4, |g.columns|)]
  {
    var xs := seq(4, i requires 0 <= i < 4 => ColAt(g, i));
    SomesPrefix(xs, Min(4, |g.columns|));
    Somes(xs)
  }

  /** `Display for Tile`: the emoji a tile is drawn with. */
  function TileText(t: Tile): (s: string)
    ensures |s| == 1
  {
    match t
    case Empty => "⬛"
    case Cookie => "\U{1F36A}"
    case Milk => "\U{1F95B}"
  }

  /** Reads a drawn tile back. */
  function ParseTile(c: char): Option<Tile> {
    if c == '⬛' then Some(Empty)
    else if c == '\U{1F36A}' then Some(Cookie)
    else if c == '\U{1F95B}' then Some(Milk)
    else None
  }

  /** Every tile is drawn with its own emoji. */
  lemma TileTextRoundTrip(t: Tile)
    ensures ParseTile(TileText(t)[0]) == Some(t)
  {
  }

  /** `Display for Row`: the row's four tiles, column 0 first; it panics on a grid of fewer than four columns. */
  function RowText(row: Row): (s: string)
    requires |row.grid.columns| >= 4 && row.at < 4
    ensures |s| == 4
    ensures forall i :: 0 <= i < 4 ==> s[i..i + 1] == TileText(TileAt(row, i).value)
  {
    TileText(TileAt(row, 0).value) + TileText(TileAt(row, 1).value)
      + TileText(TileAt(row, 2).value) + TileText(TileAt(row, 3).value)
  }

  /** A drawn row reads back as the tiles of its first four columns at that index. */
  lemma RowTextRoundTrip(row: Row)
    requires |row.grid.columns| >= 4 && row.at < 4
    ensures forall i :: 0 <= i < 4 ==>
              ParseTile(RowText(row)[i]) == Some(row.grid.columns[i].tiles[row.at])
  {
    var s := RowText(row);
    forall i | 0 <= i < 4
      ensures ParseTile(s[i]) == Some(row.grid.columns[i].tiles[row.at])
    {
      assert s[i] == s[i..i + 1][0];
      TileTextRoundTrip(row.grid.columns[i].tiles[row.at]);
    }
  }
}
