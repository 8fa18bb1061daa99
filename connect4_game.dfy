/**
  Connect-Four on a 4x4 board (src/connect4/game.rs): the status of a board,
  folded from the status of each of its ten lines, and the game that piles
  tiles into columns until the status is no longer `Playing`.
 */
module Connect4Game {
  import opened Wrappers
  import Model = Connect4Model

  datatype Team = Cookie | Milk

  /** `From<Team> for Tile`. */
  function TeamTile(team: Team): (t: Model.Tile)
    ensures t != Model.Empty
    ensures t == Model.Cookie <==> team == Cookie
  {
    match team
    case Cookie => Model.Cookie
    case Milk => Model.Milk
  }

  datatype Status = Playing | NoWinner | Wins(team: Team)

  /** What the tiles of one line, read so far, add up to. */
  datatype LineStatus = Initial | OnlyCookie | OnlyMilk | NotFilled | Mixed

  /** `LineStatus::accept_tile`: the status after reading one more tile. */
  function AcceptTile(s: LineStatus, tile: Model.Tile): (r: LineStatus)
    ensures r != Initial
    ensures r == NotFilled <==> tile == Model.Empty
    ensures r == OnlyCookie <==> tile == Model.Cookie && (s == Initial || s == OnlyCookie)
    ensures r == OnlyMilk <==> tile == Model.Milk && (s == Initial || s == OnlyMilk)
  {
    match (s, tile)
    case (_, Empty) => NotFilled
    case (Initial, Cookie) => OnlyCookie
    case (OnlyCookie, Cookie) => OnlyCookie
    case (Initial, Milk) => OnlyMilk
    case (OnlyMilk, Milk) => OnlyMilk
    case _ => Mixed
  }

  /** The status of a line: its tiles accepted in order, from `Initial`. */
  function LineOf(tiles: seq<Model.Tile>): (r: LineStatus)
    ensures r == Initial <==> tiles == []
    ensures tiles != [] ==> (r == NotFilled <==> tiles[|tiles| - 1] == Model.Empty)
    decreases |tiles|
  {
    if tiles == [] then Initial else AcceptTile(LineOf(tiles[..|tiles| - 1]), tiles[|tiles| - 1])
  }

  /**
    A line is `OnlyCookie` (`OnlyMilk`) exactly when it is not empty and all
    its tiles are cookies (milk), and `NotFilled` exactly when its LAST tile
    is empty: an empty tile followed by a filled one makes the line `Mixed`.
   */
  lemma {:induction false} LineOfMeaning(tiles: seq<Model.Tile>)
    ensures LineOf(tiles) == Initial <==> tiles == []
    ensures LineOf(tiles) == OnlyCookie <==> tiles != [] && forall i :: 0 <= i < |tiles| ==> tiles[i] == Model.Cookie
    ensures LineOf(tiles) == OnlyMilk <==> tiles != [] && forall i :: 0 <= i < |tiles| ==> tiles[i] == Model.Milk
    ensures LineOf(tiles) == NotFilled <==> tiles != [] && tiles[|tiles| - 1] == Model.Empty
    decreases |tiles|
  {
    if tiles != [] {
      var pre := tiles[..|tiles| - 1];
      LineOfMeaning(pre);
      assert forall i :: 0 <= i < |pre| ==> pre[i] == tiles[i];
    }
  }

  predicate IsWin(l: LineStatus) {
    l == OnlyCookie || l == OnlyMilk
  }

  function Winner(l: LineStatus): Team
    requires IsWin(l)
  {
    if l == OnlyCookie then Cookie else Milk
  }

  /** One step of `Status::collect_lines`: a win sticks, a full line wins, an unfilled one means playing. */
  function CollectStep(s: Status, l: LineStatus): (r: Status)
    ensures s.Wins? ==> r == s
    ensures !s.Wins? && IsWin(l) ==> r == Wins(Winner(l))
    ensures !s.Wins? && !IsWin(l) ==> !r.Wins? && (r == Playing <==> s == Playing || l == NotFilled)
  {
    match (s, l)
    case (Wins(_), _) => s
    case (_, OnlyCookie) => Wins(Cookie)
    case (_, OnlyMilk) => Wins(Milk)
    case (_, NotFilled) => Playing
    case _ => s
  }

  /** `Status::collect_lines`: the lines folded in order, from `NoWinner`. */
  function CollectLines(lines: seq<LineStatus>): (r: Status)
    ensures r.Wins? <==> exists i :: 0 <= i < |lines| && IsWin(lines[i])
    decreases |lines|
  {
    if lines == [] then NoWinner
    else
      var pre := lines[..|lines| - 1];
      assert forall i :: 0 <= i < |pre| ==> pre[i] == lines[i];
      CollectStep(CollectLines(pre), lines[|lines| - 1])
  }

  /** `collect_lines` gives the team of the first winning line, whatever follows it. */
  lemma {:induction false} FirstWinDecides(lines: seq<LineStatus>, i: nat)
    requires i < |lines| && IsWin(lines[i])
    requires forall j :: 0 <= j < i ==> !IsWin(lines[j])
    ensures CollectLines(lines) == Wins(Winner(lines[i]))
    decreases |lines|
  {
    var pre := lines[..|lines| - 1];
    if i < |pre| {
      assert forall j :: 0 <= j < i ==> pre[j] == lines[j];
      FirstWinDecides(pre, i);
    } else {
      NoWinYet(pre);
    }
  }

  /** Before any winning line, `collect_lines` has not settled on a winner. */
  lemma {:induction false} NoWinYet(lines: seq<LineStatus>)
    requires forall j :: 0 <= j < |lines| ==> !IsWin(lines[j])
    ensures !CollectLines(lines).Wins?
    ensures CollectLines(lines) == Playing <==> exists j :: 0 <= j < |lines| && lines[j] == NotFilled
    decreases |lines|
  {
    if lines != [] {
      var pre := lines[..|lines| - 1];
      assert forall j :: 0 <= j < |pre| ==> pre[j] == lines[j];
      NoWinYet(pre);
      if CollectLines(pre) == Playing {
        var j :| 0 <= j < |pre| && pre[j] == NotFilled;
        assert lines[j] == NotFilled;
      }
    }
  }

  /**
    `collect_lines` gives: the team of the first winning line if there is one;
    otherwise `Playing` if some line is `NotFilled`; otherwise `NoWinner`.
   */
  lemma CollectLinesMeaning(lines: seq<LineStatus>)
    ensures forall i :: 0 <= i < |lines| && IsWin(lines[i]) && (forall j :: 0 <= j < i ==> !IsWin(lines[j]))
              ==> CollectLines(lines) == Wins(Winner(lines[i]))
    ensures (forall i :: 0 <= i < |lines| ==> !IsWin(lines[i]))
              ==> (CollectLines(lines) == Playing <==> exists i :: 0 <= i < |lines| && lines[i] == NotFilled)
    ensures (forall i :: 0 <= i < |lines| ==> !IsWin(lines[i]) && lines[i] != NotFilled)
              ==> CollectLines(lines) == NoWinner
  {
    forall i | 0 <= i < |lines| && IsWin(lines[i]) && (forall j :: 0 <= j < i ==> !IsWin(lines[j]))
      ensures CollectLines(lines) == Wins(Winner(lines[i]))
    {
      FirstWinDecides(lines, i);
    }
    if forall i :: 0 <= i < |lines| ==> !IsWin(lines[i]) {
      NoWinYet(lines);
    }
  }

  /** `collect_lines` says `Playing` only if some line is `NotFilled`. */
  lemma {:induction false} PlayingNeedsNotFilled(lines: seq<LineStatus>)
    requires CollectLines(lines) == Playing
    ensures exists i :: 0 <= i < |lines| && lines[i] == NotFilled
    decreases |lines|
  {
    var pre := lines[..|lines| - 1];
    if lines[|lines| - 1] != NotFilled {
      PlayingNeedsNotFilled(pre);
      var i :| 0 <= i < |pre| && pre[i] == NotFilled;
      assert lines[i] == NotFilled;
    }
  }

  // ----- the ten lines of a board -----

  /** Columns the status reads: `Grid::cols` yields at most four. */
  function Width(g: Model.Grid): nat {
    Model.Min(4, |g.columns|)
  }

  /** Row `r` across the first `n` columns. */
  function RowTiles(g: Model.Grid, r: nat, n: nat): (ts: seq<Model.Tile>)
    requires r < 4 && n <= |g.columns|
    ensures |ts| == n
  {
    seq(n, c requires 0 <= c < n => g.columns[c].tiles[r])
  }

  /** Column `c` at row `c`, over the first `n` columns (top left to bottom right). */
  function Diagonal(g: Model.Grid, n: nat): (ts: seq<Model.Tile>)
    requires n <= |g.columns| && n <= 4
    ensures |ts| == n
  {
    seq(n, c requires 0 <= c < n => g.columns[c].tiles[c])
  }

  /** Column `c` at row `3 - c`, over the first `n` columns (bottom left to top right). */
  function AntiDiagonal(g: Model.Grid, n: nat): (ts: seq<Model.Tile>)
    requires n <= |g.columns| && n <= 4
    ensures |ts| == n
  {
    seq(n, c requires 0 <= c < n => g.columns[c].tiles[3 - c])
  }

  /** Reading one more column extends row `r` by one tile. */
  lemma RowStep(g: Model.Grid, r: nat, c: nat)
    requires r < 4 && c < |g.columns|
    ensures LineOf(RowTiles(g, r, c + 1)) == AcceptTile(LineOf(RowTiles(g, r, c)), g.columns[c].tiles[r])
  {
    assert RowTiles(g, r, c + 1)[..c] == RowTiles(g, r, c);
  }

  /** Reading one more column extends the diagonal by one tile. */
  lemma DiagonalStep(g: Model.Grid, c: nat)
    requires c < |g.columns| && c < 4
    ensures LineOf(Diagonal(g, c + 1)) == AcceptTile(LineOf(Diagonal(g, c)), g.columns[c].tiles[c])
  {
    assert Diagonal(g, c + 1)[..c] == Diagonal(g, c);
  }

  /** Reading one more column extends the anti-diagonal by one tile. */
  lemma AntiDiagonalStep(g: Model.Grid, c: nat)
    requires c < |g.columns| && c < 4
    ensures LineOf(AntiDiagonal(g, c + 1)) == AcceptTile(LineOf(AntiDiagonal(g, c)), g.columns[c].tiles[3 - c])
  {
    assert AntiDiagonal(g, c + 1)[..c] == AntiDiagonal(g, c);
  }

  /** Reading one more tile of a column extends its prefix by that tile. */
  lemma LineStepDown(tiles: seq<Model.Tile>, r: nat)
    requires r < |tiles|
    ensures LineOf(tiles[..r + 1]) == AcceptTile(LineOf(tiles[..r]), tiles[r])
  {
    assert tiles[..r + 1][..r] == tiles[..r];
  }

  /** The statuses of the four rows across the first `n` columns. */
  function RowLines(g: Model.Grid, n: nat): (ls: seq<LineStatus>)
    requires n <= |g.columns|
    ensures |ls| == 4
  {
    seq(4, r requires 0 <= r < 4 => LineOf(RowTiles(g, r, n)))
  }

  /** The statuses of the four columns once the first `n` have been read; the others stay `Initial`. */
  function ColLines(g: Model.Grid, n: nat): (ls: seq<LineStatus>)
    requires n <= |g.columns|
    ensures |ls| == 4
  {
    seq(4, k requires 0 <= k < 4 => if k < n then LineOf(g.columns[k].tiles) else Initial)
  }

  /** Every status of `ls` fed the tile of its own position in `col`. */
  function Fed(ls: seq<LineStatus>, col: seq<Model.Tile>): (r: seq<LineStatus>)
    requires |ls| == |col|
    ensures |r| == |ls|
  {
    seq(|ls|, i requires 0 <= i < |ls| => AcceptTile(ls[i], col[i]))
  }

  /** Reading column `c` feeds its tiles to the rows and sets its own status. */
  lemma ColumnRead(g: Model.Grid, c: nat)
    requires c < |g.columns| && c < 4
    ensures RowLines(g, c + 1) == Fed(RowLines(g, c), g.columns[c].tiles)
    ensures ColLines(g, c + 1) == ColLines(g, c)[c := LineOf(g.columns[c].tiles)]
  {
    forall r | 0 <= r < 4
      ensures RowLines(g, c + 1)[r] == Fed(RowLines(g, c), g.columns[c].tiles)[r]
    {
      RowStep(g, r, c);
    }
  }

  /** What `status` has accumulated after reading some columns: four rows, four columns, two diagonals. */
  datatype Scan = Scan(rows: seq<LineStatus>, cols: seq<LineStatus>, d1: LineStatus, d2: LineStatus)

  /** The accumulators of `status` after its outer loop has read the first `c` columns. */
  function ReadColumns(g: Model.Grid, c: nat): (sc: Scan)
    requires c <= |g.columns| && c <= 4
    ensures |sc.rows| == 4 && |sc.cols| == 4
    ensures forall k :: c <= k < 4 ==> sc.cols[k] == Initial
    decreases c
  {
    if c == 0 then Scan(seq(4, _ => Initial), seq(4, _ => Initial), Initial, Initial)
    else
      var prev := ReadColumns(g, c - 1);
      var col := g.columns[c - 1].tiles;
      Scan(Fed(prev.rows, col), prev.cols[c - 1 := LineOf(col)],
           AcceptTile(prev.d1, col[c - 1]), AcceptTile(prev.d2, col[3 - (c - 1)]))
  }

  /** Once every column is read, the accumulators, folded, give the status of the board. */
  lemma ScanIsStatus(g: Model.Grid)
    ensures var sc := ReadColumns(g, Width(g));
      CollectLines([sc.d1, sc.d2] + sc.rows + sc.cols) == StatusOf(g)
  {
    ReadColumnsLines(g, Width(g));
  }

  /** One more turn of the outer loop of `status`. */
  lemma ReadColumnsStep(g: Model.Grid, c: nat, col: seq<Model.Tile>)
    requires c < |g.columns| && c < 4 && col == g.columns[c].tiles
    ensures ReadColumns(g, c + 1).rows == Fed(ReadColumns(g, c).rows, col)
    ensures ReadColumns(g, c + 1).cols == ReadColumns(g, c).cols[c := LineOf(col)]
    ensures ReadColumns(g, c + 1).d1 == AcceptTile(ReadColumns(g, c).d1, col[c])
    ensures ReadColumns(g, c + 1).d2 == AcceptTile(ReadColumns(g, c).d2, col[3 - c])
  {
  }

  /** After `c` columns, each accumulator is the status of its line over those columns. */
  lemma {:induction false} ReadColumnsLines(g: Model.Grid, c: nat)
    requires c <= |g.columns| && c <= 4
    ensures ReadColumns(g, c) == Scan(RowLines(g, c), ColLines(g, c), LineOf(Diagonal(g, c)), LineOf(AntiDiagonal(g, c)))
    decreases c
  {
    if c == 0 {
      assert RowLines(g, 0) == seq(4, _ => Initial);
      assert ColLines(g, 0) == seq(4, _ => Initial);
    } else {
      ReadColumnsLines(g, c - 1);
      ColumnRead(g, c - 1);
      DiagonalStep(g, c - 1);
      AntiDiagonalStep(g, c - 1);
    }
  }

  /** The statuses `status` folds, in its order: two diagonals, four rows, four columns. */
  function Lines(g: Model.Grid): (ls: seq<LineStatus>)
    ensures |ls| == 10
  {
    var n := Width(g);
    [LineOf(Diagonal(g, n)), LineOf(AntiDiagonal(g, n))] + RowLines(g, n) + ColLines(g, n)
  }

  /** The status of a board. */
  function StatusOf(g: Model.Grid): (s: Status)
    ensures s.Wins? <==> exists i :: 0 <= i < |Lines(g)| && IsWin(Lines(g)[i])
  {
    CollectLines(Lines(g))
  }

  predicate HasNoEmpty(g: Model.Grid) {
    forall c, r :: 0 <= c < |g.columns| && 0 <= r < 4 ==> g.columns[c].tiles[r] != Model.Empty
  }

  lemma FilledLine(tiles: seq<Model.Tile>)
    requires forall i :: 0 <= i < |tiles| ==> tiles[i] != Model.Empty
    ensures LineOf(tiles) != NotFilled
  {
    if tiles != [] {
      assert tiles[|tiles| - 1] != Model.Empty;
    }
  }

  /** A board with no empty tile is never `Playing`. */
  lemma FullBoardNotPlaying(g: Model.Grid)
    requires HasNoEmpty(g)
    ensures StatusOf(g) != Playing
  {
    var ls := Lines(g);
    var n := Width(g);
    forall r | 0 <= r < 4
      ensures LineOf(RowTiles(g, r, n)) != NotFilled
    {
      FilledLine(RowTiles(g, r, n));
    }
    FilledLine(Diagonal(g, n));
    FilledLine(AntiDiagonal(g, n));
    assert forall i :: 0 <= i < |ls| ==> ls[i] != NotFilled;
    if StatusOf(g) == Playing {
      PlayingNeedsNotFilled(ls);
    }
  }

  /** The highest index holding an empty tile: where a piled tile lands. */
  function LowestFree(tiles: seq<Model.Tile>): (r: Option<nat>)
    ensures r.Some? ==> r.value < |tiles| && tiles[r.value] == Model.Empty
    ensures r.Some? ==> forall j :: r.value < j < |tiles| ==> tiles[j] != Model.Empty
    ensures r.None? ==> forall j :: 0 <= j < |tiles| ==> tiles[j] != Model.Empty
    decreases |tiles|
  {
    if tiles == [] then None
    else if tiles[|tiles| - 1] == Model.Empty then Some(|tiles| - 1)
    else LowestFree(tiles[..|tiles| - 1])
  }

  datatype Error = InvalidColumn(col: nat) | ColumnFulfilled(col: nat) | GameFinished(status: Status)

  /** The board after `pile(team, col)`, or the error it returns. */
  function PileOn(g: Model.Grid, team: Team, col: nat): (r: Result<Model.Grid, Error>)
    ensures StatusOf(g) != Playing ==> r == Err(GameFinished(StatusOf(g)))
    ensures StatusOf(g) == Playing && col >= |g.columns| ==> r == Err(InvalidColumn(col))
    ensures StatusOf(g) == Playing && col < |g.columns| && LowestFree(g.columns[col].tiles).None? ==>
              r == Err(ColumnFulfilled(col))
    ensures r.Ok? <==> StatusOf(g) == Playing && col < |g.columns| && LowestFree(g.columns[col].tiles).Some?
  {
    var s := StatusOf(g);
    if s != Playing then Err(GameFinished(s))
    else if col >= |g.columns| then Err(InvalidColumn(col))
    else
      var column := g.columns[col];
      match LowestFree(column.tiles)
      case None => Err(ColumnFulfilled(col))
      case Some(i) =>
        var placed := Model.Column(column.tiles[i := TeamTile(team)]);
        Ok(Model.Grid(g.columns[col := placed]))
  }

  /**
    A successful pile sets exactly one tile, the lowest empty one of the
    column, to the team's tile, and leaves every other tile as it was.
   */
  lemma PileSetsOneTile(g: Model.Grid, team: Team, col: nat)
    requires PileOn(g, team, col).Ok?
    ensures var g' := PileOn(g, team, col).value;
            var i := LowestFree(g.columns[col].tiles).value;
            && |g'.columns| == |g.columns|
            && g'.columns[col].tiles[i] == TeamTile(team)
            && g.columns[col].tiles[i] == Model.Empty
            && (forall j :: i < j < 4 ==> g.columns[col].tiles[j] != Model.Empty)
            && (forall c, r :: 0 <= c < |g.columns| && 0 <= r < 4 && (c, r) != (col, i)
                  ==> g'.columns[c].tiles[r] == g.columns[c].tiles[r])
  {
  }

  /** The board of a new game: four empty columns. */
  function EmptyGrid(): (g: Model.Grid)
    ensures |g.columns| == 4
    ensures forall c, r :: 0 <= c < 4 && 0 <= r < 4 ==> g.columns[c].tiles[r] == Model.Empty
  {
    Model.Grid(seq(4, _ => Model.DefaultColumn()))
  }

  /** A new game is being played. */
  lemma EmptyGridPlaying()
    ensures StatusOf(EmptyGrid()) == Playing
  {
    var g := EmptyGrid();
    var ls := Lines(g);
    LineOfMeaning(Diagonal(g, 4));
    LineOfMeaning(AntiDiagonal(g, 4));
    forall i | 0 <= i < 10
      ensures !IsWin(ls[i])
    {
      if i < 2 {
      } else if i < 6 {
        LineOfMeaning(RowTiles(g, i - 2, 4));
      } else {
        LineOfMeaning(g.columns[i - 6].tiles);
      }
    }
    CollectLinesMeaning(ls);
  }

  /** A line with a filled last tile and tiles of both kinds, or an empty one, is `Mixed`. */
  lemma MixedLine(tiles: seq<Model.Tile>, i: nat, j: nat)
    requires i < |tiles| && j < |tiles| && tiles[|tiles| - 1] != Model.Empty
    requires tiles[i] != Model.Cookie && tiles[j] != Model.Milk
    ensures LineOf(tiles) == Mixed
  {
    LineOfMeaning(tiles);
  }

  /**
    A board on which nine tiles are empty: the bottom row and the rightmost
    column are filled, with no four alike.
   */
  function StuckBoard(): (g: Model.Grid)
    ensures |g.columns| == 4 && g.columns[0].tiles[0] == Model.Empty
  {
    var E, C, M := Model.Empty, Model.Cookie, Model.Milk;
    Model.Grid([Model.Column([E, E, E, C]), Model.Column([E, E, E, M]),
                Model.Column([E, E, E, C]), Model.Column([C, M, M, C])])
  }

  /**
    The status can be `NoWinner` while tiles are still empty: every line of
    `StuckBoard` ends with a filled tile, so none is `NotFilled`, and `pile`
    refuses every move although the left columns have room.
   */
  lemma NoWinnerWithEmptyTiles()
    ensures StatusOf(StuckBoard()) == NoWinner
    ensures forall team, col :: PileOn(StuckBoard(), team, col) == Err(GameFinished(NoWinner))
  {
    StuckBoardMixed();
    CollectLinesMeaning(Lines(StuckBoard()));
  }

  /** Every line of the stuck board holds both a cookie tile and a milk or empty one, and ends filled. */
  lemma StuckBoardMixed()
    ensures forall i :: 0 <= i < 10 ==> Lines(StuckBoard())[i] == Mixed
  {
    var g := StuckBoard();
    MixedLine(Diagonal(g, 4), 0, 0);
    MixedLine(AntiDiagonal(g, 4), 1, 1);
    MixedLine(RowTiles(g, 0, 4), 0, 0);
    MixedLine(RowTiles(g, 1, 4), 0, 0);
    MixedLine(RowTiles(g, 2, 4), 0, 0);
    MixedLine(RowTiles(g, 3, 4), 1, 0);
    MixedLine(g.columns[0].tiles, 0, 0);
    MixedLine(g.columns[1].tiles, 0, 0);
    MixedLine(g.columns[2].tiles, 0, 0);
    MixedLine(g.columns[3].tiles, 1, 0);
    var ls := Lines(g);
    assert forall i :: 0 <= i < 10 ==> ls[i] == Mixed;
  }

  /** `Game`: only its grid is modelled (the source's `Game` holds nothing else). */
  class Game {
    var grid: Model.Grid

    /** `Game::new`: four empty columns. */
    constructor New()
      ensures grid == EmptyGrid()
    {
      grid := Model.Grid(seq(4, _ => Model.DefaultColumn()));
    }

    /** `Game::reset`: every column back to the default column. */
    method Reset()
      modifies this
      ensures |grid.columns| == |old(grid.columns)|
      ensures forall c :: 0 <= c < |grid.columns| ==> grid.columns[c] == Model.DefaultColumn()
    {
      grid := Model.Grid(seq(|grid.columns|, _ => Model.DefaultColumn()));
    }

    /**
      `Game::status`: one pass over the columns feeds every tile to its row's
      and its column's status, and the diagonal tiles to the diagonals', then
      the ten statuses are collected.
     */
    method Status() returns (s: Status)
      ensures s == StatusOf(grid)
    {
      var sc := ScanColumns(grid);
      ScanIsStatus(grid);
      s := CollectLines([sc.d1, sc.d2] + sc.rows + sc.cols);
    }

    /** The outer loop of `status`, over the (at most four) columns of `g`. */
    static method ScanColumns(g: Model.Grid) returns (sc: Scan)
      ensures sc == ReadColumns(g, Width(g))
    {
      var rows := new LineStatus[4](_ => Initial);
      var cols := new LineStatus[4](_ => Initial);
      var d1, d2 := Initial, Initial;
      var columns := Model.Cols(g);
      var n := |columns|;
      assert rows[..] == ReadColumns(g, 0).rows && cols[..] == ReadColumns(g, 0).cols;
      for c := 0 to n
        invariant rows[..] == ReadColumns(g, c).rows && cols[..] == ReadColumns(g, c).cols
        invariant d1 == ReadColumns(g, c).d1 && d2 == ReadColumns(g, c).d2
      {
        var col := columns[c].tiles;
        ReadColumnsStep(g, c, col);
        cols[c] := ReadColumn(col, rows, cols[c]);
        d1 := AcceptTile(d1, col[c]);
        d2 := AcceptTile(d2, col[3 - c]);
      }
      sc := Scan(rows[..], cols[..], d1, d2);
    }

    /** `Game::pile`. */
    method Pile(team: Team, col: nat) returns (r: Result<(), Error>)
      modifies this
      ensures PileOn(old(grid), team, col).Ok? ==> r == Ok(()) && grid == PileOn(old(grid), team, col).value
      ensures PileOn(old(grid), team, col).Err? ==> r == Err(PileOn(old(grid), team, col).error) && grid == old(grid)
    {
      var s := Status();
      if s.Wins? || s.NoWinner? {
        return Err(GameFinished(s));
      }
      if col >= |grid.columns| {
        return Err(InvalidColumn(col));
      }
      var column := grid.columns[col];
      match LowestFree(column.tiles)
      case None =>
        return Err(ColumnFulfilled(col));
      case Some(i) =>
        var placed := Model.Column(column.tiles[i := TeamTile(team)]);
        grid := Model.Grid(grid.columns[col := placed]);
        return Ok(());
    }

    /**
      The inner loop of `status`: the tiles of one column fed, one by one, to
      the rows and to `cs`, the status of that column (the source's `&mut cols[c]`).
     */
    static method ReadColumn(col: seq<Model.Tile>, rows: array<LineStatus>, cs: LineStatus) returns (cs': LineStatus)
      requires |col| == 4 && rows.Length == 4 && cs == Initial
      modifies rows
      ensures rows[..] == Fed(old(rows[..]), col)
      ensures cs' == LineOf(col)
    {
      cs' := cs;
      for r := 0 to 4
        invariant forall r' :: 0 <= r' < 4 ==> rows[r'] == if r' < r then AcceptTile(old(rows[r']), col[r']) else old(rows[r'])
        invariant cs' == LineOf(col[..r])
      {
        LineStepDown(col, r);
        rows[r] := AcceptTile(rows[r], col[r]);
        cs' := AcceptTile(cs', col[r]);
      }
      assert col[..4] == col;
    }
  }
}
