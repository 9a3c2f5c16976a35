/** The one-line board: seven cells, each empty or holding one tile, and the
    word they spell (`calculateScore`'s first loop and its `replace`). */
module Board {
  import opened Tiles

  const BoardSize := 7
  /** `specialCells`: index 3 is the Double Letter cell, index 6 the Double Word cell. */
  const DoubleLetterCell := 3
  const DoubleWordCell := 6
  /** The character an empty cell contributes to the spelled word. */
  const Gap := '.'

  /** A cell holds at most one tile: either none or exactly one. */
  datatype Cell = Empty | Holds(tile: Tile)

  function EmptyBoard(): seq<Cell> {
    seq(BoardSize, _ => Empty)
  }

  function CellChar(c: Cell): char {
    if c.Holds? then c.tile.letter else Gap
  }

  /** The raw word: one character per cell, in cell order. */
  function Spell(cells: seq<Cell>): seq<char> {
    seq(|cells|, i requires 0 <= i < |cells| => CellChar(cells[i]))
  }

  predicate AllGaps(s: seq<char>) {
    forall k :: 0 <= k < |s| ==> s[k] == Gap
  }

  /** `^\.*` replaced by nothing. */
  function TrimLeading(s: seq<char>): seq<char> {
    if s != [] && s[0] == Gap then TrimLeading(s[1..]) else s
  }

  /** `\.*$` replaced by nothing. */
  function TrimTrailing(s: seq<char>): seq<char> {
    if s != [] && s[|s| - 1] == Gap then TrimTrailing(s[..|s| - 1]) else s
  }

  /** `word.replace(/^\.*|\.*$/g, '')` */
  function Trim(s: seq<char>): seq<char> {
    TrimTrailing(TrimLeading(s))
  }

  /** The word the board spells. */
  function Spelled(cells: seq<Cell>): seq<char> {
    Trim(Spell(cells))
  }

  /** `s[lo..hi]` is what is left of `s` once its leading and trailing gaps are
      gone: only gaps lie outside it, and it neither starts nor ends with one. */
  predicate Splits(s: seq<char>, lo: int, hi: int) {
    && 0 <= lo <= hi <= |s|
    && AllGaps(s[..lo]) && AllGaps(s[hi..])
    && (lo < hi ==> s[lo] != Gap && s[hi - 1] != Gap)
  }

  lemma {:induction false} TrimLeadingDrops(s: seq<char>, lo: int)
    requires 0 <= lo <= |s| && AllGaps(s[..lo]) && (lo < |s| ==> s[lo] != Gap)
    ensures TrimLeading(s) == s[lo..]
  {
    if lo > 0 {
      assert s[0] == s[..lo][0];
      assert s[1..][..lo - 1] == s[1..lo];
      TrimLeadingDrops(s[1..], lo - 1);
    }
  }

  lemma {:induction false} TrimTrailingDrops(s: seq<char>, hi: int)
    requires 0 <= hi <= |s| && AllGaps(s[hi..]) && (hi > 0 ==> s[hi - 1] != Gap)
    ensures TrimTrailing(s) == s[..hi]
  {
    if hi < |s| {
      assert s[|s| - 1] == s[hi..][|s| - 1 - hi];
      var init := s[..|s| - 1];
      assert init[hi..] == s[hi..|s| - 1];
      TrimTrailingDrops(init, hi);
    }
  }

  /** Trimming removes exactly the leading and trailing gaps: whatever split of
      `s` into gaps, a word without edge gaps, and gaps, the trim is that word. */
  lemma TrimCharacterised(s: seq<char>, lo: int, hi: int)
    requires Splits(s, lo, hi)
    ensures Trim(s) == s[lo..hi]
  {
    if lo < hi {
      TrimLeadingDrops(s, lo);
      var t := s[lo..];
      assert t[hi - lo..] == s[hi..];
      TrimTrailingDrops(t, hi - lo);
    } else {
      assert AllGaps(s) by {
        forall k | 0 <= k < |s| ensures s[k] == Gap {
          if k < lo { assert s[k] == s[..lo][k]; } else { assert s[k] == s[hi..][k - hi]; }
        }
      }
      TrimLeadingDrops(s, |s|);
    }
  }

  /** The index of the first non-gap character, or `|s|`. */
  function FirstLetter(s: seq<char>): (k: nat)
    ensures k <= |s| && AllGaps(s[..k]) && (k < |s| ==> s[k] != Gap)
  {
    if s == [] || s[0] != Gap then 0
    else
      var k := FirstLetter(s[1..]);
      assert s[..k + 1] == [s[0]] + s[1..][..k];
      k + 1
  }

  /** One past the index of the last non-gap character, or 0. */
  function EndOfLetters(s: seq<char>): (k: nat)
    ensures k <= |s| && AllGaps(s[k..]) && (k > 0 ==> s[k - 1] != Gap)
  {
    if s == [] || s[|s| - 1] != Gap then |s|
    else
      var k := EndOfLetters(s[..|s| - 1]);
      assert s[k..] == s[..|s| - 1][k..] + [s[|s| - 1]];
      k
  }

  lemma {:induction false} LetterBeforeEnd(s: seq<char>, k: int)
    requires 0 <= k < |s| && s[k] != Gap
    ensures k < EndOfLetters(s)
  {
    if s[|s| - 1] == Gap {
      assert k < |s| - 1;
      LetterBeforeEnd(s[..|s| - 1], k);
    }
  }

  /** Every string splits into leading gaps, the trimmed word and trailing gaps,
      so the trimmed word has no gap at either end and keeps every interior gap. */
  lemma TrimSplits(s: seq<char>)
    ensures exists lo, hi :: Splits(s, lo, hi) && Trim(s) == s[lo..hi]
  {
    var lo := FirstLetter(s);
    if lo == |s| {
      assert Splits(s, lo, lo);
      TrimCharacterised(s, lo, lo);
    } else {
      var hi := EndOfLetters(s);
      LetterBeforeEnd(s, lo);
      assert Splits(s, lo, hi);
      TrimCharacterised(s, lo, hi);
    }
  }

  /** The tiles on the board, in cell order. */
  function BoardTiles(cells: seq<Cell>): seq<Tile> {
    if cells == [] then []
    else
      var last := cells[|cells| - 1];
      BoardTiles(cells[..|cells| - 1]) + (if last.Holds? then [last.tile] else [])
  }

  function LettersOf(tiles: seq<Tile>): seq<char> {
    seq(|tiles|, i requires 0 <= i < |tiles| => tiles[i].letter)
  }

  lemma LettersOfAppend(a: seq<Tile>, b: seq<Tile>)
    ensures LettersOf(a + b) == LettersOf(a) + LettersOf(b)
  {
  }

  /** Tiles that are a rearrangement of each other carry the same letters. */
  lemma {:induction false} LettersOfPermutation(x: seq<Tile>, y: seq<Tile>)
    requires multiset(x) == multiset(y)
    ensures multiset(LettersOf(x)) == multiset(LettersOf(y))
  {
    if x == [] {
      assert |y| == |multiset(y)| == 0;
    } else {
      var n := |x|;
      var t, init := x[n - 1], x[..n - 1];
      assert x == init + [t];
      assert LettersOf(x) == LettersOf(init) + [t.letter];
      assert t in multiset(y) by {
        assert t in multiset(x);
      }
      var j :| 0 <= j < |y| && y[j] == t;
      var rest := y[..j] + y[j + 1..];
      DropOne(y, j);
      Cancel(multiset(init), multiset(rest), t);
      LettersOfPermutation(init, rest);
    }
  }

  /** Taking the tile at `j` out of a sequence takes one copy of it, and of its
      letter, out of the multisets. */
  lemma DropOne(y: seq<Tile>, j: int)
    requires 0 <= j < |y|
    ensures multiset(y) == multiset(y[..j] + y[j + 1..]) + multiset{y[j]}
    ensures multiset(LettersOf(y)) == multiset(LettersOf(y[..j] + y[j + 1..])) + multiset{y[j].letter}
  {
    assert y == y[..j] + [y[j]] + y[j + 1..];
    var s := LettersOf(y);
    assert LettersOf(y[..j] + y[j + 1..]) == s[..j] + s[j + 1..];
    assert s == s[..j] + [s[j]] + s[j + 1..];
  }

  lemma Cancel(a: multiset<Tile>, b: multiset<Tile>, t: Tile)
    requires a + multiset{t} == b + multiset{t}
    ensures a == b
  {
    forall x ensures a[x] == b[x] {
      assert (a + multiset{t})[x] == (b + multiset{t})[x];
    }
  }

  /** The board spells nothing exactly when no cell holds a tile. */
  lemma {:induction false} SpelledEmptyIffNoTiles(cells: seq<Cell>)
    requires forall i :: 0 <= i < |cells| && cells[i].Holds? ==> IsKeyLetter(cells[i].tile.letter)
    ensures Spelled(cells) == [] <==> forall i :: 0 <= i < |cells| ==> cells[i] == Empty
  {
    var s := Spell(cells);
    TrimSplits(s);
    var lo, hi :| Splits(s, lo, hi) && Trim(s) == s[lo..hi];
    assert Spelled(cells) == s[lo..hi];
    if Spelled(cells) == [] {
      assert lo == hi;
      forall i | 0 <= i < |cells| ensures cells[i] == Empty {
        if i < lo { assert s[i] == s[..lo][i]; } else { assert s[i] == s[hi..][i - hi]; }
      }
    } else {
      assert lo < hi && s[lo] != Gap;
      assert cells[lo].Holds?;
    }
  }

  /** Tiles in the contiguous run of cells `lo .. hi - 1` and nowhere else spell
      their letters in cell order, whatever cells the run starts and ends at. */
  lemma ContiguousSpelled(cells: seq<Cell>, lo: int, hi: int)
    requires 0 <= lo < hi <= |cells|
    requires forall i :: 0 <= i < |cells| ==> (cells[i].Holds? <==> lo <= i < hi)
    requires forall i :: 0 <= i < |cells| && cells[i].Holds? ==> IsKeyLetter(cells[i].tile.letter)
    ensures Spelled(cells) == LettersOf(BoardTiles(cells[lo..hi]))
    ensures Gap !in Spelled(cells)
  {
    var s := Spell(cells);
    assert Splits(s, lo, hi);
    TrimCharacterised(s, lo, hi);
    RunLetters(cells[lo..hi]);
  }

  lemma {:induction false} RunLetters(run: seq<Cell>)
    requires forall i :: 0 <= i < |run| ==> run[i].Holds?
    ensures LettersOf(BoardTiles(run)) == Spell(run)
  {
    if run != [] {
      var init := run[..|run| - 1];
      RunLetters(init);
      assert Spell(run) == Spell(init) + [run[|run| - 1].tile.letter];
    }
  }

  /** The letters of the first `n + 1` cells' tiles extend those of the first `n`. */
  lemma BoardTilesPrefix(cells: seq<Cell>, n: int)
    requires 0 <= n < |cells|
    ensures BoardTiles(cells[..n + 1])
            == BoardTiles(cells[..n]) + (if cells[n].Holds? then [cells[n].tile] else [])
  {
    assert cells[..n + 1][..n] == cells[..n];
  }

  function CellTiles(c: Cell): multiset<Tile> {
    if c.Holds? then multiset{c.tile} else multiset{}
  }

  /** The tiles of two runs of cells, one after the other. */
  lemma {:induction false} BoardTilesConcat(a: seq<Cell>, b: seq<Cell>)
    ensures BoardTiles(a + b) == BoardTiles(a) + BoardTiles(b)
  {
    if b == [] {
      assert a + b == a;
    } else {
      var init := b[..|b| - 1];
      assert (a + b)[..|a + b| - 1] == a + init;
      BoardTilesConcat(a, init);
    }
  }

  /** A tile moved into or out of one cell is added to or taken from the
      board's tiles, and nothing else changes. */
  lemma BoardTilesUpdate(cells: seq<Cell>, i: int, c: Cell)
    requires 0 <= i < |cells|
    ensures multiset(BoardTiles(cells[i := c])) + CellTiles(cells[i])
            == multiset(BoardTiles(cells)) + CellTiles(c)
  {
    var pre, post := cells[..i], cells[i + 1..];
    assert cells == pre + [cells[i]] + post;
    assert cells[i := c] == pre + [c] + post;
    BoardTilesConcat(pre + [cells[i]], post);
    BoardTilesConcat(pre, [cells[i]]);
    BoardTilesConcat(pre + [c], post);
    BoardTilesConcat(pre, [c]);
    assert BoardTiles([c]) == BoardTiles([]) + (if c.Holds? then [c.tile] else []);
    assert BoardTiles([cells[i]]) == BoardTiles([]) + (if cells[i].Holds? then [cells[i].tile] else []);
    Swap4(multiset(BoardTiles(pre)), multiset(BoardTiles(post)), CellTiles(c), CellTiles(cells[i]));
  }

  /** Two tiles exchanged in the middle of the board's tiles. */
  lemma Swap4(p: multiset<Tile>, q: multiset<Tile>, c: multiset<Tile>, d: multiset<Tile>)
    ensures p + c + q + d == p + d + q + c
  {
    forall x ensures (p + c + q + d)[x] == (p + d + q + c)[x] {
    }
  }

  /** The cells with the first `n` emptied. */
  function Cleared(cells: seq<Cell>, n: int): (r: seq<Cell>)
    ensures |r| == |cells|
  {
    seq(|cells|, k requires 0 <= k < |cells| => if k < n then Empty else cells[k])
  }

  /** An empty board has no tiles. */
  lemma {:induction false} EmptyBoardHasNoTiles(cells: seq<Cell>)
    requires forall i :: 0 <= i < |cells| ==> cells[i] == Empty
    ensures BoardTiles(cells) == []
  {
    if cells != [] {
      EmptyBoardHasNoTiles(cells[..|cells| - 1]);
    }
  }
}
