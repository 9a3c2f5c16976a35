# One-line Scrabble: a model of `js.js`

`js.js` is a one-line Scrabble game that runs in the browser. The game state is:

- a bag of letters (`availableTiles`), built from a tile table (`pieces.json`, where each letter has a value and an amount);
- a rack of seven tiles;
- a board of seven cells, where cell 3 is a Double Letter cell and cell 6 a Double Word cell;
- a running game score;
- a validation message.

The player drags tiles from the rack onto empty cells and submits a word:

- An empty board only prompts for a word.
- A word of more than one letter whose lower-case form is in the word list is scored. Its letters leave the bag, and a new hand is drawn.
- Any other word sends the board's tiles back to the rack.

The page (jQuery, images, drag handles) is not modelled. What is modelled is the state those handlers change, and the rules they apply.

Files and modules:

- `tiles.dfy` (`Tiles`)
  - the tile table as a sequence of `Piece`s in key order;
  - the bag that `loadLetters` builds from it (`Expand`);
  - the `indexOf`/`splice` removal of one letter (`RemoveFirst`) and of a word's letters (`RemoveEach`).
- `shuffle.dfy` (`Shuffle`)
  - `shuffleArray` as an in-place Fisher–Yates loop on an `array`, proved to compute the specification function `Shuffled`;
  - the random index of each step is a parameter `picks`.
- `board.dfy` (`Board`)
  - cells, and the word a board spells (`Spelled`): a letter per tile, `.` per empty cell, leading and trailing `.` removed;
  - the tiles on a board, in cell order (`BoardTiles`).
- `lexicon.dfy` (`Lexicon`): the dictionary test (`IsValidWord`), including the rule that one-letter words never count.
- `scoring.dfy` (`Scoring`)
  - the state of the scoring loop (`LoopTotal`, `LoopDoubled`) and the points of a valid word (`RoundScore`);
  - a closed form of that score: tile values, plus the Double Letter tile once more, doubled when a non-zero tile is on the Double Word cell.
- `game.dfy` (`Game`)
  - the class `Session`: the bag, the score, the rack and the message are fields, and the board is an `array<Cell>`;
  - one method per function and button handler of the script;
  - a class invariant `Valid()`: every tile in play is a tile of the table, and the bag holds only table letters;
  - an accounting invariant `Accounted()`: the letters of the tiles in play are still in the bag, and the bag never holds more of a letter than the table supplies. In the model every handler preserves it, because the new round follows a scored word at once (see `Game.Session.Submit` under "Left out").

Where the code differs from the usual Scrabble rules (drawn tiles leave the bag, a new game refills it), the model follows the code:

- Drawing a hand copies the first seven letters of the shuffled bag (`slice`) and does not take them out. The bag only shrinks when a word is scored.
- The reset and refresh buttons do not refill the bag.
- Because of this, "rack, board and bag together never exceed the table's supply" is not an invariant of the code. The invariant that holds between handlers in the model is `Session.Accounted`. In the program it fails for the two seconds between a scored word and the delayed `resetGame`.

## Model

| member | source | states |
|---|---|---|
| Tiles.ExpandSize | js.js:28-34 | the letters `loadLetters` pushes number exactly the sum of all amounts |
| Tiles.ExpandCounts | js.js:28-34 | each letter occurs in the loaded bag as often as the amounts of its entries add up to |
| Tiles.SupplyOfKey | js.js:29-32 | with distinct keys, a key's supply is its own amount, and it occurs in the loaded bag exactly `amount` times (none for a non-positive amount) |
| Tiles.ExpandLetters | js.js:29-31 | every letter in the loaded bag is a key of the table |
| Tiles.ValueOfKey | js.js:54 | looking up a key's value gives that entry's value |
| Tiles.IndexOf | js.js:144 | `indexOf` gives -1 exactly when the letter is absent, otherwise a position holding it with no earlier occurrence |
| Tiles.RemoveFirstCount | js.js:144-147 | `indexOf` + `splice` takes exactly one occurrence of a present letter out, and changes nothing otherwise |
| Tiles.RemoveEachCount | js.js:133-148 | taking a word's letters out one by one removes their multiset from the bag (multiset difference) |
| Shuffle.Swap | js.js:39 | the destructuring swap keeps the length and the elements |
| Shuffle.Steps | js.js:37-40 | every prefix of the shuffle loop is a permutation of the input |
| Shuffle.ShuffleArray | js.js:36-42 | the in-place loop leaves the array equal to `Shuffled` of its old contents, a permutation of them |
| Board.TrimCharacterised | js.js:126 | removing leading and trailing `.` leaves exactly the span between the first and the last letter |
| Board.TrimSplits | js.js:126 | every raw word splits into leading gaps, the trimmed word, and trailing gaps |
| Board.SpelledEmptyIffNoTiles | js.js:115-127 | the board spells the empty word if and only if no cell holds a tile |
| Board.ContiguousSpelled | js.js:115-126 | tiles filling one run of cells spell their letters in cell order |
| Board.LettersOfPermutation | js.js:91-93 | rearranging tiles rearranges their letters |
| Board.BoardTilesUpdate | js.js:82-93 | changing one cell swaps that cell's tile for the new one in the board's tiles |
| Board.EmptyBoardHasNoTiles | js.js:170 | an emptied board holds no tiles |
| Lexicon.ValidityIgnoresCase | js.js:130 | two words that differ only in letter case are both valid or both invalid |
| Lexicon.SingleTileRejected | js.js:115-130 | a single tile anywhere on the board spells a one-letter word, which is rejected whatever the word list holds |
| Lexicon.GappedWordRejected | js.js:126-130 | a word with an interior gap is rejected unless some word-list entry itself contains `.` |
| Scoring.LoopTotalIs | js.js:131-148 | after the first `n` cells, `totalScore` is the sum of their tiles' values, plus the Double Letter tile once more once cell 3 is passed |
| Scoring.LoopDoubledIs | js.js:132-138 | `doubleWord` is set exactly when the loop has passed a non-zero tile on cell 6 |
| Scoring.RoundScoreFormula | js.js:131-151 | a valid word scores (sum of values + Double Letter value) × (2 if a non-zero tile is on the Double Word cell, else 1) |
| Scoring.RoundScoreNonNegative | js.js:131-154 | with no negative tile values, a valid word never lowers the game score |
| Scoring.ScoreExamples | js.js:131-151 | two worked boards: "AT" on cells 3-4 scores 3, and "CAT" on cells 4-6 scores 10 |
| Game.Hand | js.js:47 | the hand is a copy of the bag's first `min(7, size)` letters, drawn from the bag |
| Game.HandTiles | js.js:47-56 | the rack tiles of a hand carry the hand's letters in order, with the table's values, and their letters are in the bag |
| Game.DealtAccounted | js.js:44-56 | a fresh hand on an empty board keeps the accounting invariant |
| Game.HeldAfterUpdate | js.js:91-93 | a tile that moves between the rack and a cell leaves the tiles in play, and their letters, unchanged |
| Game.Session.constructor | js.js:12-18 | the initial state: empty bag, empty rack, seven empty cells, score 0, no message |
| Game.Session.Start | js.js:193-199 | `start` fills the bag with the table's letters shuffled by `picks` and deals the rack from it, establishing both invariants |
| Game.Session.LoadLetters | js.js:28-34 | the bag grows by exactly the expansion of the table, in key order |
| Game.Session.ShuffleBag | js.js:45 | the bag becomes `Shuffled` of the old bag |
| Game.Session.InitializeTiles | js.js:44-56 | the bag is shuffled and kept, and the rack gains tiles for its first seven letters |
| Game.Session.Place | js.js:82-93 | a cell takes a rack tile if and only if it was empty; the rack loses exactly that tile; tiles in play and both invariants are kept |
| Game.Session.Move | js.js:82-93 | a board tile moves to another cell if and only if that cell was empty; tiles in play are kept |
| Game.Session.ReturnToRack | js.js:96-103 | the rack accepts every board tile and puts it last; the cell empties; tiles in play are kept |
| Game.Session.ReadWord | js.js:115-126 | the word read is the board's `Spelled` word |
| Game.Session.ScoreBoard | js.js:131-151 | the loop computes `RoundScore` of the board and leaves the bag with the board's letters taken out |
| Game.Session.ScoreTile | js.js:135-142 | one tile's points and whether it sets the Double Word flag |
| Game.Session.TakeLetter | js.js:143-147 | one occurrence of the letter leaves the bag, if there is one |
| Game.Session.ResetTiles | js.js:163-167 | every board tile goes to the end of the rack in cell order; the board empties; tiles in play are kept |
| Game.Session.CalculateScore | js.js:114-160 | the three cases: empty word (message only), valid word (score added, letters out of the bag, board kept), and any other word (tiles back to the rack) |
| Game.Session.ResetGame | js.js:169-175 | the board and rack empty, the message clears, the bag is reshuffled, and a new hand of `min(7, size)` tiles is dealt |
| Game.Session.Submit | js.js:177-181 | the outcome is a score exactly for a non-empty valid word and `NoWord` exactly for an empty one, so any other word is `Rejected` and its tiles go back to the rack; the game score grows by exactly the points scored, a new round follows a score, each outcome sets its message, and accounting is preserved |
| Game.Session.Reset | js.js:183-187 | a new round, and the game score is 0 |
| Game.Session.Refresh | js.js:189-191 | a new round, and the game score is kept |

## Left out

- The page: jQuery, images, CSS classes, drag opacity and revert. A rack tile, a board tile and a cell are values, and a drop is a method call with the cell index.
- Loading `pieces.json` and `words.txt`: the table and the word list are constructor parameters. `words.txt` is already split into lines. Its load errors and `console.log` are not modelled.
- `Math.random`: the index chosen at each shuffle step is the caller's parameter `picks`. The model says nothing about the uniformity of the shuffle.
- Game.Session.Submit: the 2-second `setTimeout` before `resetGame` is not modelled. The new round follows the score at once. Two things of that window are not captured: a second submit would score the same board again, and `Accounted` does not hold, because the word's letters have left the bag while its tiles are still on the board.
- The `#score-display` and `#game-score-display` texts are not modelled. The points are in `Outcome.Scored`, and the game score is in `gameScore`.
- `toUpperCase` when drawing: table keys are required to be ASCII capitals or `_`, which upcasing leaves unchanged. A table with any other key is outside the model. For a key whose upper case differs, such as `é`, the program looks up the upcased key and, unless the table also has that upper-case key, finds no entry and throws, which ends the draw. If it does have it, the program draws a tile with the upper-case key's letter and value while the bag keeps the original key. `Lower` folds only `A`-`Z`, which covers every key.
- Reordering tiles within the rack: the rack's drop handler appends a tile, which is all `ReturnToRack` models.
- In `start`, the board is laid out after the first hand is drawn. The constructor lays it out first, which has the same effect because drawing does not touch the board.
- JavaScript truthiness of a tile value: tile values are integers, and a zero value is the one falsy case that matters.
