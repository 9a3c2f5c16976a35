/** The dictionary test of `calculateScore`: a word of length one never
    counts, any other counts when its lower-case form is in the word list. */
module Lexicon {
  import opened Tiles
  import opened Board

  /** `toLowerCase` on the ASCII capitals; other characters are kept. */
  function LowerChar(c: char): char {
    if 'A' <= c <= 'Z' then (c as int - 'A' as int + 'a' as int) as char else c
  }

  function Lower(w: string): (r: string)
    ensures |r| == |w|
  {
    seq(|w|, i requires 0 <= i < |w| => LowerChar(w[i]))
  }

  /** `word.length != 1 && validWords.includes(word.toLowerCase())` */
  predicate IsValidWord(dictionary: seq<string>, word: string) {
    |word| != 1 && Lower(word) in dictionary
  }

  /** The test ignores case: two words that differ only in the case of their
      ASCII letters are both valid or both not. */
  lemma {:induction false} ValidityIgnoresCase(dictionary: seq<string>, w1: string, w2: string)
    requires |w1| == |w2|
    requires forall i :: 0 <= i < |w1| ==> LowerChar(w1[i]) == LowerChar(w2[i])
    ensures IsValidWord(dictionary, w1) <==> IsValidWord(dictionary, w2)
  {
    assert Lower(w1) == Lower(w2);
  }

  /** A single tile on the board, wherever it is, spells a one-letter word,
      which is rejected whatever the dictionary holds. */
  lemma SingleTileRejected(dictionary: seq<string>, cells: seq<Cell>, k: int)
    requires 0 <= k < |cells| && cells[k].Holds? && IsKeyLetter(cells[k].tile.letter)
    requires forall i :: 0 <= i < |cells| && i != k ==> cells[i] == Empty
    ensures Spelled(cells) == [cells[k].tile.letter]
    ensures !IsValidWord(dictionary, Spelled(cells))
  {
    ContiguousSpelled(cells, k, k + 1);
    assert cells[k..k + 1] == [cells[k]];
    assert BoardTiles([cells[k]]) == [cells[k].tile] by {
      assert [cells[k]][..0] == [];
    }
  }

  /** A word with an interior gap is rejected unless some dictionary entry
      itself contains the gap character. */
  lemma GappedWordRejected(dictionary: seq<string>, word: string)
    requires forall w :: w in dictionary ==> Gap !in w
    requires Gap in word
    ensures !IsValidWord(dictionary, word)
  {
    var k :| 0 <= k < |word| && word[k] == Gap;
    assert Lower(word)[k] == Gap;
  }
}
