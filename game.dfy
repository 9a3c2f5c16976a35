/** The game of `js.js` without its page: the module-level state (`availableTiles`,
    `gameScore`, the seven board cells, the tile rack, the validation message)
    and the handlers that change it. */
module Game {
  import opened Tiles
  import opened Shuffle
  import opened Board
  import opened Lexicon
  import opened Scoring

  /** `noOfLetters`: the size of a hand. */
  const NoOfLetters := 7

  /** The text of `#validation-message`. */
  datatype Message = NoMessage | ConstructWord | FoundWord(word: string) | InvalidWord(word: string)

  /** What `calculateScore` returns: nothing when there is no word, `true` for a
      valid word (whose points it shows in `#score-display`), `false` otherwise. */
  datatype Outcome = NoWord | Scored(points: int) | Rejected

  function Min(a: int, b: int): int {
    if a < b then a else b
  }

  /** `availableTiles.slice(0, noOfLetters)`: the letters of a new hand, copied
      from the front of the bag. */
  function Hand(bag: seq<char>): (r: seq<char>)
    ensures |r| == Min(NoOfLetters, |bag|)
    ensures multiset(r) <= multiset(bag)
    ensures forall k :: 0 <= k < |r| ==> r[k] == bag[k]
  {
    var r := bag[..Min(NoOfLetters, |bag|)];
    assert bag == r + bag[|r|..];
    r
  }

  /** The rack tiles made for `letters`, in order. */
  function TilesFor(pieces: seq<Piece>, letters: seq<char>): seq<Tile>
    requires forall c :: c in letters ==> c in KeyLetters(pieces)
  {
    seq(|letters|, i requires 0 <= i < |letters| => TileFor(pieces, letters[i]))
  }

  lemma TilesForStep(pieces: seq<Piece>, letters: seq<char>, k: int)
    requires forall c :: c in letters ==> c in KeyLetters(pieces)
    requires 0 <= k < |letters|
    ensures forall c :: c in letters[..k + 1] ==> c in KeyLetters(pieces)
    ensures TilesFor(pieces, letters[..k + 1])
            == TilesFor(pieces, letters[..k]) + [TileFor(pieces, letters[k])]
  {
  }

  /** A hand holds only letters of the bag. */
  lemma HandKeys(pieces: seq<Piece>, bag: seq<char>)
    requires forall c :: c in bag ==> c in KeyLetters(pieces)
    ensures forall c :: c in Hand(bag) ==> c in KeyLetters(pieces)
  {
    var h := Hand(bag);
    assert bag == h + bag[|h|..];
  }

  /** The tiles of a new hand are the table's tiles for exactly the hand's letters. */
  lemma HandTiles(pieces: seq<Piece>, bag: seq<char>)
    requires forall c :: c in bag ==> c in KeyLetters(pieces)
    ensures |TilesFor(pieces, Hand(bag))| == Min(NoOfLetters, |bag|)
    ensures LettersOf(TilesFor(pieces, Hand(bag))) == Hand(bag)
    ensures forall t :: t in TilesFor(pieces, Hand(bag)) ==> IsTileOf(pieces, t)
    ensures multiset(LettersOf(TilesFor(pieces, Hand(bag)))) <= multiset(bag)
  {
    var tiles := TilesFor(pieces, Hand(bag));
    forall t | t in tiles ensures IsTileOf(pieces, t) {
      var i :| 0 <= i < |tiles| && tiles[i] == t;
    }
  }

  /** A fresh hand on an empty board is drawn from the bag, and a bag that is a
      rearrangement of part of the table's letters stays within them. */
  lemma DealtAccounted(pieces: seq<Piece>, bag: seq<char>, cells: seq<Cell>)
    requires forall c :: c in bag ==> c in KeyLetters(pieces)
    requires forall i :: 0 <= i < |cells| ==> cells[i] == Empty
    ensures multiset(LettersOf(TilesFor(pieces, Hand(bag)) + BoardTiles(cells))) <= multiset(bag)
  {
    EmptyBoardHasNoTiles(cells);
    HandTiles(pieces, bag);
    assert TilesFor(pieces, Hand(bag)) + BoardTiles(cells) == TilesFor(pieces, Hand(bag));
  }

  /** One cell of the board changes and the rack makes up for it: the tiles in
      play, and so their letters, stay the same. */
  lemma HeldAfterUpdate(rack: seq<Tile>, cells: seq<Cell>, i: int, c: Cell, rack2: seq<Tile>)
    requires 0 <= i < |cells|
    requires multiset(rack2) + CellTiles(c) == multiset(rack) + CellTiles(cells[i])
    ensures multiset(rack2 + BoardTiles(cells[i := c])) == multiset(rack + BoardTiles(cells))
    ensures multiset(LettersOf(rack2 + BoardTiles(cells[i := c])))
            == multiset(LettersOf(rack + BoardTiles(cells)))
  {
    var after, before := BoardTiles(cells[i := c]), BoardTiles(cells);
    BoardTilesUpdate(cells, i, c);
    Exchange(multiset(rack2), multiset(rack), multiset(after), multiset(before), CellTiles(c), CellTiles(cells[i]));
    assert multiset(rack2 + after) == multiset(rack2) + multiset(after);
    assert multiset(rack + before) == multiset(rack) + multiset(before);
    LettersOfPermutation(rack2 + after, rack + before);
  }

  /** Tiles that are a rearrangement of tiles made from the table were made from it too. */
  lemma TilesKept(pieces: seq<Piece>, x: seq<Tile>, y: seq<Tile>)
    requires multiset(x) == multiset(y)
    requires forall t :: t in y ==> IsTileOf(pieces, t)
    ensures forall t :: t in x ==> IsTileOf(pieces, t)
  {
    forall t | t in x ensures IsTileOf(pieces, t) {
      assert t in multiset(y);
    }
  }

  /** The letters of the first `i + 1` cells' tiles: those of the first `i`,
      then cell `i`'s letter if it holds a tile. */
  lemma TakenStep(cells: seq<Cell>, i: int)
    requires 0 <= i < |cells|
    ensures LettersOf(BoardTiles(cells[..i + 1]))
            == LettersOf(BoardTiles(cells[..i])) + (if cells[i].Holds? then [cells[i].tile.letter] else [])
  {
    BoardTilesPrefix(cells, i);
    LettersOfAppend(BoardTiles(cells[..i]), if cells[i].Holds? then [cells[i].tile] else []);
  }

  lemma RemoveEachSnoc(s: seq<char>, cs: seq<char>, c: char)
    ensures RemoveEach(s, cs + [c]) == RemoveFirst(RemoveEach(s, cs), c)
  {
    assert (cs + [c])[..|cs|] == cs;
  }

  /** Taking letters out never adds to the bag. */
  lemma RemoveEachShrinks(s: seq<char>, cs: seq<char>)
    ensures multiset(RemoveEach(s, cs)) <= multiset(s)
  {
    RemoveEachCount(s, cs);
  }

  /** Letters taken out of a bag of keys leave a bag of keys. */
  lemma RemoveEachKeeps(pieces: seq<Piece>, s: seq<char>, cs: seq<char>)
    requires forall c :: c in s ==> c in KeyLetters(pieces)
    ensures forall c :: c in RemoveEach(s, cs) ==> c in KeyLetters(pieces)
  {
    RemoveEachShrinks(s, cs);
    KeysKept(pieces, s, RemoveEach(s, cs));
  }

  /** What one side gains the other loses: the totals stay equal. */
  lemma Exchange(r2: multiset<Tile>, r: multiset<Tile>, a: multiset<Tile>, b: multiset<Tile>,
                 p: multiset<Tile>, q: multiset<Tile>)
    requires r2 + p == r + q && a + q == b + p
    ensures r2 + a == r + b
  {
    forall x ensures (r2 + a)[x] == (r + b)[x] {
      assert (r2 + p)[x] == (r + q)[x] && (a + q)[x] == (b + p)[x];
    }
  }

  /** A bag rearranged, or with letters taken out, still holds only keys of the table. */
  lemma KeysKept(pieces: seq<Piece>, x: seq<char>, y: seq<char>)
    requires multiset(y) <= multiset(x)
    requires forall c :: c in x ==> c in KeyLetters(pieces)
    ensures forall c :: c in y ==> c in KeyLetters(pieces)
  {
    forall c | c in y ensures c in KeyLetters(pieces) {
      assert c in multiset(y);
    }
  }

  class Session {
    /** `tilesData.pieces`, read-only once loaded. */
    const catalog: seq<Piece>
    /** `validWords`, read-only once loaded. */
    const dictionary: seq<string>
    /** `availableTiles` */
    var bag: seq<char>
    var gameScore: int
    /** The seven cells of `#scrabble-board`. */
    const board: array<Cell>
    /** The tiles in `#tile-rack`, in order. */
    var rack: seq<Tile>
    var message: Message

    /** The board has seven cells, the table is well formed, every letter in the
        bag is a key of the table, and every tile in play was made from it. */
    ghost predicate Valid()
      reads this, board
    {
      && board.Length == BoardSize
      && CatalogOk(catalog)
      && (forall c :: c in bag ==> c in KeyLetters(catalog))
      && (forall t :: t in Held() ==> IsTileOf(catalog, t))
    }

    /** The word on the board. */
    ghost function Word(): string
      reads this, board
    {
      Spelled(board[..])
    }

    /** The tiles in play: those on the rack and those on the board. */
    ghost function Held(): seq<Tile>
      reads this, board
    {
      rack + BoardTiles(board[..])
    }

    /** No tile is ever made out of nothing: every tile in play is still counted
        in the bag (a hand is copied from the bag, and only a scored word takes
        letters out of it), and the bag never holds more of a letter than the
        table supplies. */
    ghost predicate Accounted()
      reads this, board
    {
      && multiset(LettersOf(Held())) <= multiset(bag)
      && multiset(bag) <= multiset(Expand(catalog))
    }

    /** The state before `start` runs: the loaded table and word list
        (`tilesData`, `validWords`), an empty bag, a zero score, an empty rack,
        no message, and the seven empty cells that `initializeBoard` lays out. */
    constructor (catalog: seq<Piece>, dictionary: seq<string>)
      requires CatalogOk(catalog)
      ensures Valid() && Accounted() && fresh(board)
      ensures this.catalog == catalog && this.dictionary == dictionary
      ensures bag == [] && rack == [] && board[..] == EmptyBoard()
      ensures gameScore == 0 && message == NoMessage
    {
      this.catalog := catalog;
      this.dictionary := dictionary;
      bag := [];
      gameScore := 0;
      rack := [];
      message := NoMessage;
      board := new Cell[BoardSize](_ => Empty);
      new;
      EmptyBoardHasNoTiles(board[..]);
    }

    /** `start`: load the letters into the empty bag, then draw the first hand. */
    method Start(picks: seq<int>)
      requires Valid() && bag == [] && rack == [] && board[..] == EmptyBoard()
      requires ValidPicks(picks, |Expand(catalog)|)
      modifies this`bag, this`rack
      ensures Valid() && Accounted()
      ensures bag == Shuffled(Expand(catalog), picks)
      ensures rack == TilesFor(catalog, Hand(bag))
    {
      LoadLetters();
      assert bag == Expand(catalog);
      InitializeTiles(picks);
      assert multiset(bag) == multiset(Expand(catalog));
      assert rack == TilesFor(catalog, Hand(bag));
      DealtAccounted(catalog, bag, board[..]);
      assert Held() == TilesFor(catalog, Hand(bag)) + BoardTiles(board[..]);
    }

    /** `loadLetters`: push every key of the table onto the bag, `amount` times. */
    method LoadLetters()
      requires Valid()
      modifies this`bag
      ensures Valid()
      ensures bag == old(bag) + Expand(catalog)
    {
      var k := 0;
      while k < |catalog|
        invariant 0 <= k <= |catalog|
        invariant Valid()
        invariant bag == old(bag) + Expand(catalog[..k])
      {
        var piece := catalog[k];
        assert piece.letter in KeyLetters(catalog) by {
          assert KeyLetters(catalog)[k] == piece.letter;
        }
        var i := 0;
        while i < piece.amount
          invariant 0 <= i <= Copies(piece.amount)
          invariant Valid()
          invariant bag == old(bag) + Expand(catalog[..k]) + Repeat(piece.letter, i)
        {
          bag := bag + [piece.letter];
          assert Repeat(piece.letter, i + 1) == Repeat(piece.letter, i) + [piece.letter];
          i := i + 1;
        }
        assert catalog[..k + 1][..k] == catalog[..k];
        k := k + 1;
      }
      assert catalog[..k] == catalog;
    }

    /** `shuffleArray(availableTiles)`: the bag, shuffled in place with the
        caller's choices. */
    method ShuffleBag(picks: seq<int>)
      requires Valid() && ValidPicks(picks, |bag|)
      modifies this`bag
      ensures Valid()
      ensures bag == Shuffled(old(bag), picks)
    {
      var letters := bag;
      var a := new char[|letters|](i requires 0 <= i < |letters| => letters[i]);
      assert a[..] == letters;
      ShuffleArray(a, picks);
      bag := a[..];
      KeysKept(catalog, letters, bag);
    }

    /** `initializeTiles`: shuffle the bag, then add tiles for a copy of its first
        seven letters to the rack; the bag keeps them. */
    method InitializeTiles(picks: seq<int>)
      requires Valid() && ValidPicks(picks, |bag|)
      modifies this`bag, this`rack
      ensures Valid()
      ensures bag == Shuffled(old(bag), picks)
      ensures rack == old(rack) + TilesFor(catalog, Hand(bag))
    {
      ShuffleBag(picks);
      var selected := bag[..Min(NoOfLetters, |bag|)];
      assert selected == Hand(bag);
      HandKeys(catalog, bag);
      HandTiles(catalog, bag);
      var drawn := [];
      var k := 0;
      while k < |selected|
        invariant 0 <= k <= |selected|
        invariant bag == Shuffled(old(bag), picks) && rack == old(rack)
        invariant drawn == TilesFor(catalog, selected[..k])
      {
        TilesForStep(catalog, selected, k);
        drawn := drawn + [TileFor(catalog, selected[k])];
        k := k + 1;
      }
      assert selected[..k] == selected;
      rack := rack + drawn;
    }

    /** A tile from the rack dropped on a board cell: the cell's `accept` rule
        takes it only when the cell holds no tile. */
    method Place(k: int, cell: int) returns (accepted: bool)
      requires Valid() && 0 <= k < |rack| && 0 <= cell < BoardSize
      modifies this`rack, board
      ensures Valid()
      ensures accepted <==> old(board[cell]) == Empty
      ensures accepted ==> (board[..] == old(board[..])[cell := Holds(old(rack[k]))]
                            && rack == old(rack[..k] + rack[k + 1..]))
      ensures !accepted ==> board[..] == old(board[..]) && rack == old(rack)
      ensures multiset(Held()) == old(multiset(Held()))
      ensures old(Accounted()) ==> Accounted()
    {
      accepted := board[cell] == Empty;
      if accepted {
        var t := rack[k];
        ghost var before := board[..];
        board[cell] := Holds(t);
        rack := rack[..k] + rack[k + 1..];
        assert board[..] == before[cell := Holds(t)];
        assert old(rack) == rack[..k] + [t] + rack[k..];
        assert multiset(old(rack)) == multiset(rack) + multiset{t};
        HeldAfterUpdate(old(rack), before, cell, Holds(t), rack);
        TilesKept(catalog, Held(), old(Held()));
      }
    }

    /** A tile on the board dropped on another cell: accepted only by an empty cell. */
    method Move(from: int, to: int) returns (accepted: bool)
      requires Valid() && 0 <= from < BoardSize && 0 <= to < BoardSize && board[from].Holds?
      modifies board
      ensures Valid()
      ensures accepted <==> old(board[to]) == Empty
      ensures accepted ==> board[..] == old(board[..])[from := Empty][to := old(board[from])]
      ensures !accepted ==> board[..] == old(board[..])
      ensures multiset(Held()) == old(multiset(Held()))
      ensures old(Accounted()) ==> Accounted()
    {
      accepted := board[to] == Empty;
      if accepted {
        var c := board[from];
        ghost var before := board[..];
        board[from] := Empty;
        ghost var middle := board[..];
        board[to] := c;
        assert middle == before[from := Empty];
        assert board[..] == middle[to := c];
        HeldAfterUpdate(rack, before, from, Empty, rack + [c.tile]);
        HeldAfterUpdate(rack + [c.tile], middle, to, c, rack);
        TilesKept(catalog, Held(), old(Held()));
      }
    }

    /** A tile on the board dropped on the rack: the rack accepts every tile and
        puts it last. */
    method ReturnToRack(cell: int)
      requires Valid() && 0 <= cell < BoardSize && board[cell].Holds?
      modifies this`rack, board
      ensures Valid()
      ensures board[..] == old(board[..])[cell := Empty]
      ensures rack == old(rack) + [old(board[cell]).tile]
      ensures multiset(Held()) == old(multiset(Held()))
      ensures old(Accounted()) ==> Accounted()
    {
      var t := board[cell].tile;
      ghost var before := board[..];
      board[cell] := Empty;
      rack := rack + [t];
      assert board[..] == before[cell := Empty];
      HeldAfterUpdate(old(rack), before, cell, Empty, rack);
      TilesKept(catalog, Held(), old(Held()));
    }

    /** The first part of `calculateScore`: read the cells in order, a letter for
        a tile and '.' for an empty cell, then strip the leading and trailing '.'. */
    method ReadWord() returns (word: string)
      requires Valid()
      ensures word == Spelled(board[..])
    {
      var raw := "";
      var i := 0;
      while i < board.Length
        invariant 0 <= i <= board.Length
        invariant raw == Spell(board[..i])
      {
        if board[i].Holds? {
          raw := raw + [board[i].tile.letter];
        } else {
          raw := raw + [Gap];
        }
        assert board[..i + 1] == board[..i] + [board[i]];
        i := i + 1;
      }
      assert board[..i] == board[..];
      word := Trim(raw);
    }

    /** The scoring loop of `calculateScore` over the board's tiles: add each
        tile's score, note a Double Word tile, take one occurrence of the tile's
        letter out of the bag; then double the total if noted. */
    method ScoreBoard() returns (total: int)
      requires board.Length == BoardSize
      modifies this`bag
      ensures total == RoundScore(board[..])
      ensures bag == RemoveEach(old(bag), LettersOf(BoardTiles(board[..])))
    {
      ghost var cells := board[..];
      ghost var taken: seq<char> := [];
      total := 0;
      var doubleWord := false;
      var i := 0;
      while i < BoardSize
        invariant 0 <= i <= BoardSize
        invariant total == LoopTotal(cells, i)
        invariant doubleWord == LoopDoubled(cells, i)
        invariant taken == LettersOf(BoardTiles(cells[..i]))
        invariant bag == RemoveEach(old(bag), taken)
      {
        TakenStep(cells, i);
        var cell := board[i];
        assert cell == cells[i];
        assert LoopTotal(cells, i + 1) == total + if cell.Holds? then TileScore(i, cell.tile) else 0;
        if cell.Holds? {
          var tileScore, doubles := ScoreTile(i, cell.tile);
          if doubles {
            doubleWord := true;
          }
          total := total + tileScore;
          TakeLetter(cell.tile.letter);
          RemoveEachSnoc(old(bag), taken, cell.tile.letter);
          taken := taken + [cell.tile.letter];
        }
        i := i + 1;
      }
      assert cells[..i] == cells;
      if doubleWord {
        total := total * 2;
      }
      assert board[..] == cells;
    }

    /** One tile in the scoring loop: a non-zero tile on the Double Word cell
        counts once and asks for the word to be doubled; a non-zero tile on the
        Double Letter cell counts twice; any other tile counts once. */
    static method ScoreTile(i: int, tile: Tile) returns (tileScore: int, doubles: bool)
      ensures tileScore == TileScore(i, tile)
      ensures doubles <==> tile.value != 0 && i == DoubleWordCell
    {
      tileScore := tile.value;
      doubles := false;
      if tileScore != 0 && i == DoubleWordCell {
        doubles := true;
      } else if tileScore != 0 && i == DoubleLetterCell {
        tileScore := tileScore * 2;
      }
    }

    /** `availableTiles.indexOf` and `splice`: the first occurrence of `letter`
        leaves the bag, if there is one. */
    method TakeLetter(letter: char)
      modifies this`bag
      ensures bag == RemoveFirst(old(bag), letter)
    {
      var index := IndexOf(bag, letter);
      if index != -1 {
        bag := bag[..index] + bag[index + 1..];
      }
    }

    /** `resetTiles`: every tile on the board goes back to the end of the rack,
        in cell order. */
    method ResetTiles()
      requires Valid()
      modifies this`rack, board
      ensures Valid()
      ensures board[..] == EmptyBoard()
      ensures rack == old(rack) + BoardTiles(old(board[..]))
      ensures Held() == old(Held())
    {
      ghost var cells := board[..];
      var i := 0;
      while i < BoardSize
        invariant 0 <= i <= BoardSize
        invariant board[..] == Cleared(cells, i)
        invariant rack == old(rack) + BoardTiles(cells[..i])
      {
        BoardTilesPrefix(cells, i);
        if board[i].Holds? {
          rack := rack + [board[i].tile];
          board[i] := Empty;
        }
        assert board[..] == Cleared(cells, i + 1);
        i := i + 1;
      }
      assert cells[..i] == cells;
      assert board[..] == EmptyBoard();
      EmptyBoardHasNoTiles(board[..]);
      assert Held() == old(Held());
    }

    /** `calculateScore`: an empty board only asks for a word; a valid word is
        scored into `gameScore` and its letters leave the bag; any other word
        sends every board tile back to the rack. */
    method CalculateScore() returns (outcome: Outcome)
      requires Valid()
      modifies this`bag, this`rack, this`gameScore, this`message, board
      ensures Valid() && Held() == old(Held())
      ensures old(Word()) == [] ==>
                && outcome == NoWord && message == ConstructWord
                && gameScore == old(gameScore) && bag == old(bag) && rack == old(rack)
                && board[..] == old(board[..])
      ensures old(Word()) != [] && IsValidWord(dictionary, old(Word())) ==>
                && outcome == Scored(RoundScore(old(board[..])))
                && message == FoundWord(old(Word()))
                && gameScore == old(gameScore) + RoundScore(old(board[..]))
                && bag == RemoveEach(old(bag), LettersOf(BoardTiles(old(board[..]))))
                && rack == old(rack) && board[..] == old(board[..])
      ensures old(Word()) != [] && !IsValidWord(dictionary, old(Word())) ==>
                && outcome == Rejected && message == InvalidWord(old(Word()))
                && gameScore == old(gameScore) && bag == old(bag)
                && rack == old(rack) + BoardTiles(old(board[..]))
                && board[..] == EmptyBoard()
    {
      var word := ReadWord();
      if word == [] {
        message := ConstructWord;
        outcome := NoWord;
      } else if |word| != 1 && Lower(word) in dictionary {
        ghost var before := bag;
        var total := ScoreBoard();
        RemoveEachKeeps(catalog, before, LettersOf(BoardTiles(board[..])));
        assert Held() == old(Held());
        message := FoundWord(word);
        gameScore := gameScore + total;
        outcome := Scored(total);
      } else {
        message := InvalidWord(word);
        ResetTiles();
        outcome := Rejected;
      }
    }

    /** `resetGame`: empty the board and the rack, clear the message, draw a new hand. */
    method ResetGame(picks: seq<int>)
      requires Valid() && ValidPicks(picks, |bag|)
      modifies this`bag, this`rack, this`message, board
      ensures Valid()
      ensures board[..] == EmptyBoard() && message == NoMessage
      ensures bag == Shuffled(old(bag), picks)
      ensures rack == TilesFor(catalog, Hand(bag))
      ensures |rack| == Min(NoOfLetters, |bag|)
      ensures multiset(old(bag)) <= multiset(Expand(catalog)) ==> Accounted()
    {
      forall i | 0 <= i < BoardSize {
        board[i] := Empty;
      }
      assert board[..] == EmptyBoard();
      EmptyBoardHasNoTiles(board[..]);
      rack := [];
      message := NoMessage;
      assert Held() == [];
      InitializeTiles(picks);
      assert rack == TilesFor(catalog, Hand(bag));
      DealtAccounted(catalog, bag, board[..]);
    }

    /** The submit button: score the board; after a valid word, start a new round. */
    method Submit(picks: seq<int>) returns (outcome: Outcome)
      requires Valid() && ValidPicks(picks, |bag|)
      modifies this`bag, this`rack, this`gameScore, this`message, board
      ensures Valid()
      ensures outcome.Scored? <==> old(Word()) != [] && IsValidWord(dictionary, old(Word()))
      ensures outcome == NoWord <==> old(Word()) == []
      ensures gameScore == old(gameScore) + (if outcome.Scored? then outcome.points else 0)
      ensures outcome.Scored? ==>
                && outcome.points == RoundScore(old(board[..]))
                && bag == Shuffled(RemoveEach(old(bag), LettersOf(BoardTiles(old(board[..])))), picks)
                && board[..] == EmptyBoard() && message == NoMessage
                && rack == TilesFor(catalog, Hand(bag)) && |rack| == Min(NoOfLetters, |bag|)
      ensures outcome == Rejected ==>
                && message == InvalidWord(old(Word()))
                && bag == old(bag) && board[..] == EmptyBoard()
                && rack == old(rack) + BoardTiles(old(board[..]))
      ensures outcome == NoWord ==>
                && message == ConstructWord
                && bag == old(bag) && board[..] == old(board[..]) && rack == old(rack)
      ensures old(Accounted()) ==> Accounted()
    {
      ghost var bagBefore, cells := bag, board[..];
      outcome := CalculateScore();
      if outcome.Scored? {
        RemoveEachShrinks(bagBefore, LettersOf(BoardTiles(cells)));
        ResetGame(picks);
      }
    }

    /** The reset button: a new round, and the game score back to zero. The bag
        is not refilled. */
    method Reset(picks: seq<int>)
      requires Valid() && ValidPicks(picks, |bag|)
      modifies this`bag, this`rack, this`gameScore, this`message, board
      ensures Valid() && gameScore == 0
      ensures board[..] == EmptyBoard() && message == NoMessage
      ensures bag == Shuffled(old(bag), picks)
      ensures rack == TilesFor(catalog, Hand(bag))
      ensures old(Accounted()) ==> Accounted()
    {
      ResetGame(picks);
      gameScore := 0;
    }

    /** The refresh-rack button: a new round, the game score kept. */
    method Refresh(picks: seq<int>)
      requires Valid() && ValidPicks(picks, |bag|)
      modifies this`bag, this`rack, this`message, board
      ensures Valid() && gameScore == old(gameScore)
      ensures board[..] == EmptyBoard() && message == NoMessage
      ensures bag == Shuffled(old(bag), picks)
      ensures rack == TilesFor(catalog, Hand(bag))
      ensures old(Accounted()) ==> Accounted()
    {
      ResetGame(picks);
    }
  }
}
