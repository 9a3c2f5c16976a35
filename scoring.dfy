/** The scoring loop of `calculateScore` for a valid word, as functions of the
    board: the state of `totalScore` and `doubleWord` after each cell, and the
    final total. */
module Scoring {
  import opened Tiles
  import opened Board

  /** What one tile adds to `totalScore`: a non-zero tile on the Double Letter
      cell adds twice its value; a non-zero tile on the Double Word cell adds its
      value and sets the flag instead. */
  function TileScore(i: int, t: Tile): int {
    if t.value != 0 && i == DoubleWordCell then t.value
    else if t.value != 0 && i == DoubleLetterCell then 2 * t.value
    else t.value
  }

  /** `totalScore` once the loop has visited the first `n` cells. */
  function LoopTotal(cells: seq<Cell>, n: int): int
    requires 0 <= n <= |cells|
  {
    if n == 0 then 0
    else
      var c := cells[n - 1];
      LoopTotal(cells, n - 1) + (if c.Holds? then TileScore(n - 1, c.tile) else 0)
  }

  /** `doubleWord` once the loop has visited the first `n` cells. */
  predicate LoopDoubled(cells: seq<Cell>, n: int)
    requires 0 <= n <= |cells|
  {
    if n == 0 then false
    else
      var c := cells[n - 1];
      LoopDoubled(cells, n - 1) || (c.Holds? && c.tile.value != 0 && n - 1 == DoubleWordCell)
  }

  /** The points a valid word scores: the loop's total, doubled if the flag is set. */
  function RoundScore(cells: seq<Cell>): int {
    var total := LoopTotal(cells, |cells|);
    if LoopDoubled(cells, |cells|) then 2 * total else total
  }

  /** The sum of the tiles' values. */
  function TileSum(tiles: seq<Tile>): int {
    if tiles == [] then 0 else TileSum(tiles[..|tiles| - 1]) + tiles[|tiles| - 1].value
  }

  /** The extra points of the Double Letter cell: its tile's value once more. */
  function LetterBonus(cells: seq<Cell>): int {
    if |cells| > DoubleLetterCell && cells[DoubleLetterCell].Holds?
    then cells[DoubleLetterCell].tile.value else 0
  }

  /** The word is doubled when a tile of non-zero value sits on the Double Word cell. */
  predicate WordDoubled(cells: seq<Cell>) {
    |cells| > DoubleWordCell && cells[DoubleWordCell].Holds? && cells[DoubleWordCell].tile.value != 0
  }

  lemma TileSumSnoc(tiles: seq<Tile>, extra: seq<Tile>)
    requires |extra| <= 1
    ensures TileSum(tiles + extra) == TileSum(tiles) + TileSum(extra)
  {
    if extra != [] {
      var all := tiles + extra;
      assert all != [] && all[..|all| - 1] == tiles && all[|all| - 1] == extra[0];
      assert extra[..0] == [];
    } else {
      assert tiles + extra == tiles;
    }
  }

  lemma {:induction false} LoopTotalIs(cells: seq<Cell>, n: int)
    requires 0 <= n <= |cells|
    ensures LoopTotal(cells, n)
            == TileSum(BoardTiles(cells[..n])) + (if n > DoubleLetterCell then LetterBonus(cells) else 0)
  {
    if n > 0 {
      var k := n - 1;
      LoopTotalIs(cells, k);
      BoardTilesPrefix(cells, k);
      var c := cells[k];
      var extra := if c.Holds? then [c.tile] else [];
      TileSumSnoc(BoardTiles(cells[..k]), extra);
      CellScore(cells, k);
      assert TileSum(extra) == if c.Holds? then c.tile.value else 0 by {
        if c.Holds? {
          assert extra[..0] == [];
        }
      }
    }
  }

  /** What the loop adds for cell `k`: the tile's value, plus the Double Letter
      bonus when `k` is that cell. */
  lemma CellScore(cells: seq<Cell>, k: int)
    requires 0 <= k < |cells|
    ensures (if cells[k].Holds? then TileScore(k, cells[k].tile) else 0)
            == (if cells[k].Holds? then cells[k].tile.value else 0)
               + (if k == DoubleLetterCell then LetterBonus(cells) else 0)
  {
  }

  lemma {:induction false} LoopDoubledIs(cells: seq<Cell>, n: int)
    requires 0 <= n <= |cells|
    ensures LoopDoubled(cells, n) <==> n > DoubleWordCell && WordDoubled(cells)
  {
    if n > 0 {
      LoopDoubledIs(cells, n - 1);
    }
  }

  /** The score of a valid word on the seven-cell board: the placed tiles'
      values, plus the Double Letter tile's value once more, all doubled when a
      non-zero tile sits on the Double Word cell. */
  lemma RoundScoreFormula(cells: seq<Cell>)
    requires |cells| == BoardSize
    ensures RoundScore(cells)
            == (if WordDoubled(cells) then 2 else 1) * (TileSum(BoardTiles(cells)) + LetterBonus(cells))
  {
    LoopTotalIs(cells, |cells|);
    LoopDoubledIs(cells, |cells|);
    assert cells[..|cells|] == cells;
  }

  lemma {:induction false} TileSumNonNegative(tiles: seq<Tile>)
    requires forall i :: 0 <= i < |tiles| ==> tiles[i].value >= 0
    ensures TileSum(tiles) >= 0
  {
    if tiles != [] {
      TileSumNonNegative(tiles[..|tiles| - 1]);
    }
  }

  lemma {:induction false} BoardTilesFromCells(cells: seq<Cell>)
    ensures forall t :: t in BoardTiles(cells) ==> Holds(t) in cells
  {
    if cells != [] {
      BoardTilesFromCells(cells[..|cells| - 1]);
    }
  }

  /** With no negative tile values a valid word never lowers the game score. */
  lemma RoundScoreNonNegative(cells: seq<Cell>)
    requires |cells| == BoardSize
    requires forall i :: 0 <= i < |cells| && cells[i].Holds? ==> cells[i].tile.value >= 0
    ensures RoundScore(cells) >= 0
  {
    RoundScoreFormula(cells);
    BoardTilesFromCells(cells);
    var tiles := BoardTiles(cells);
    forall i | 0 <= i < |tiles| ensures tiles[i].value >= 0 {
      assert tiles[i] in tiles;
      var k :| 0 <= k < |cells| && cells[k] == Holds(tiles[i]);
    }
    TileSumNonNegative(tiles);
  }

  /** Two placements: "AT" on cells 3 and 4 (A doubled: 2 + 1), and "CAT" on
      cells 4 to 6 (3 + 1 + 1, doubled by the last cell). */
  lemma ScoreExamples()
    ensures RoundScore([Empty, Empty, Empty, Holds(Tile('A', 1)), Holds(Tile('T', 1)), Empty, Empty]) == 3
    ensures RoundScore([Empty, Empty, Empty, Empty, Holds(Tile('C', 3)), Holds(Tile('A', 1)), Holds(Tile('T', 1))]) == 10
  {
    var at := [Empty, Empty, Empty, Holds(Tile('A', 1)), Holds(Tile('T', 1)), Empty, Empty];
    var cat := [Empty, Empty, Empty, Empty, Holds(Tile('C', 3)), Holds(Tile('A', 1)), Holds(Tile('T', 1))];
    RoundScoreFormula(at);
    RoundScoreFormula(cat);
  }
}
