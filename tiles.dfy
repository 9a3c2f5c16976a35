/** The tile table (`tilesData.pieces`) and the bag of letters (`availableTiles`)
    built from it, with the two bag operations the game uses: building the bag
    (`loadLetters`) and taking one occurrence of a letter out (`indexOf` + `splice`). */
module Tiles {

  /** One entry of the tile table: a letter (the key of the JSON object), its
      point value and its supply. Entries are kept in the object's key order. */
  datatype Piece = Piece(letter: char, value: int, amount: int)

  /** A tile on the rack or on the board: its letter and the point value that
      was looked up for it when it was drawn. */
  datatype Tile = Tile(letter: char, value: int)

  /** A key of the tile table is an ASCII capital or the blank `_`: characters
      that `toUpperCase` leaves as they are, so the key drawn is the key looked
      up, and never the gap marker '.' that the board uses for an empty cell. */
  predicate IsKeyLetter(c: char) {
    'A' <= c <= 'Z' || c == '_'
  }

  /** The keys of one JSON object are distinct; they are key letters. */
  predicate CatalogOk(pieces: seq<Piece>) {
    && (forall i, j :: 0 <= i < j < |pieces| ==> pieces[i].letter != pieces[j].letter)
    && (forall i :: 0 <= i < |pieces| ==> IsKeyLetter(pieces[i].letter))
  }

  function KeyLetters(pieces: seq<Piece>): seq<char> {
    seq(|pieces|, i requires 0 <= i < |pieces| => pieces[i].letter)
  }

  /** `tilesData["pieces"][c].value` */
  function ValueOf(pieces: seq<Piece>, c: char): int
    requires c in KeyLetters(pieces)
  {
    if pieces[0].letter == c then pieces[0].value
    else
      assert c in KeyLetters(pieces[1..]) by {
        var i :| 0 <= i < |pieces| && KeyLetters(pieces)[i] == c;
        assert KeyLetters(pieces[1..])[i - 1] == c;
      }
      ValueOf(pieces[1..], c)
  }

  /** The tile that is made for letter `c` when it is drawn. */
  function TileFor(pieces: seq<Piece>, c: char): (t: Tile)
    requires c in KeyLetters(pieces)
  {
    Tile(c, ValueOf(pieces, c))
  }

  /** The tile was made from the table: its letter is a key and it carries that key's value. */
  predicate IsTileOf(pieces: seq<Piece>, t: Tile) {
    t.letter in KeyLetters(pieces) && t.value == ValueOf(pieces, t.letter)
  }

  /** With distinct keys, looking up a key gives that entry's value. */
  lemma {:induction false} ValueOfKey(pieces: seq<Piece>, i: int)
    requires CatalogOk(pieces) && 0 <= i < |pieces|
    ensures pieces[i].letter in KeyLetters(pieces)
    ensures ValueOf(pieces, pieces[i].letter) == pieces[i].value
  {
    assert KeyLetters(pieces)[i] == pieces[i].letter;
    if i > 0 {
      assert pieces[0].letter != pieces[i].letter;
      var rest := pieces[1..];
      assert CatalogOk(rest) by {
        forall a, b | 0 <= a < b < |rest| ensures rest[a].letter != rest[b].letter {
          assert rest[a] == pieces[a + 1] && rest[b] == pieces[b + 1];
        }
      }
      assert rest[i - 1] == pieces[i];
      ValueOfKey(rest, i - 1);
    }
  }

  /** The number of times the `for (i = 0; i < amount; i++)` loop runs. */
  function Copies(amount: int): nat {
    if amount > 0 then amount else 0
  }

  function Repeat(c: char, n: nat): seq<char> {
    seq(n, _ => c)
  }

  /** The letters `loadLetters` pushes, in order: each key repeated by its amount. */
  function Expand(pieces: seq<Piece>): seq<char> {
    if pieces == [] then []
    else
      var last := pieces[|pieces| - 1];
      Expand(pieces[..|pieces| - 1]) + Repeat(last.letter, Copies(last.amount))
  }

  /** The sum of all amounts. */
  function Supply(pieces: seq<Piece>): nat {
    if pieces == [] then 0
    else Supply(pieces[..|pieces| - 1]) + Copies(pieces[|pieces| - 1].amount)
  }

  /** The sum of the amounts of the entries whose key is `c`. */
  function SupplyOf(pieces: seq<Piece>, c: char): nat {
    if pieces == [] then 0
    else
      var last := pieces[|pieces| - 1];
      SupplyOf(pieces[..|pieces| - 1], c) + (if last.letter == c then Copies(last.amount) else 0)
  }

  /** The bag grows by exactly the sum of all amounts. */
  lemma {:induction false} ExpandSize(pieces: seq<Piece>)
    ensures |Expand(pieces)| == Supply(pieces)
  {
    if pieces != [] {
      ExpandSize(pieces[..|pieces| - 1]);
    }
  }

  /** Each letter occurs in the expansion as often as its amounts add up to. */
  lemma {:induction false} ExpandCounts(pieces: seq<Piece>, c: char)
    ensures multiset(Expand(pieces))[c] == SupplyOf(pieces, c)
  {
    if pieces != [] {
      var init, last := pieces[..|pieces| - 1], pieces[|pieces| - 1];
      ExpandCounts(init, c);
      var r := Repeat(last.letter, Copies(last.amount));
      assert multiset(r)[c] == if last.letter == c then Copies(last.amount) else 0 by {
        RepeatCount(last.letter, Copies(last.amount), c);
      }
      assert Expand(pieces) == Expand(init) + r;
    }
  }

  lemma {:induction false} RepeatCount(x: char, n: nat, c: char)
    ensures multiset(Repeat(x, n))[c] == if x == c then n else 0
  {
    if n > 0 {
      RepeatCount(x, n - 1, c);
      assert Repeat(x, n) == Repeat(x, n - 1) + [x];
    }
  }

  /** With distinct keys, a key's supply is its own amount, and so is its count in the bag. */
  lemma {:induction false} SupplyOfKey(pieces: seq<Piece>, i: int)
    requires CatalogOk(pieces) && 0 <= i < |pieces|
    ensures SupplyOf(pieces, pieces[i].letter) == Copies(pieces[i].amount)
    ensures multiset(Expand(pieces))[pieces[i].letter] == Copies(pieces[i].amount)
  {
    ExpandCounts(pieces, pieces[i].letter);
    var n := |pieces|;
    var init := pieces[..n - 1];
    assert CatalogOk(init);
    if i == n - 1 {
      SupplyOfAbsent(init, pieces[i].letter);
    } else {
      assert init[i] == pieces[i];
      SupplyOfKey(init, i);
    }
  }

  lemma {:induction false} SupplyOfAbsent(pieces: seq<Piece>, c: char)
    requires c !in KeyLetters(pieces)
    ensures SupplyOf(pieces, c) == 0
  {
    if pieces != [] {
      var init := pieces[..|pieces| - 1];
      assert KeyLetters(pieces) == KeyLetters(init) + [pieces[|pieces| - 1].letter];
      SupplyOfAbsent(init, c);
    }
  }

  /** Every letter in the expansion is a key of the table. */
  lemma {:induction false} ExpandLetters(pieces: seq<Piece>)
    ensures forall x :: x in Expand(pieces) ==> x in KeyLetters(pieces)
  {
    if pieces != [] {
      var init, last := pieces[..|pieces| - 1], pieces[|pieces| - 1];
      ExpandLetters(init);
      assert KeyLetters(pieces) == KeyLetters(init) + [last.letter];
    }
  }

  /** `Array.prototype.indexOf`: the first position of `c`, or -1. */
  function IndexOf(s: seq<char>, c: char): (k: int)
    ensures -1 <= k < |s|
    ensures k == -1 <==> c !in s
    ensures k >= 0 ==> s[k] == c && c !in s[..k]
  {
    if s == [] then -1
    else if s[0] == c then 0
    else
      var k := IndexOf(s[1..], c);
      if k == -1 then -1 else k + 1
  }

  /** `indexOf` then `splice(index, 1)` when found: one occurrence of `c` leaves the bag. */
  function RemoveFirst(s: seq<char>, c: char): (r: seq<char>)
    ensures |r| <= |s|
  {
    var k := IndexOf(s, c);
    if k == -1 then s else s[..k] + s[k + 1..]
  }

  /** Removing a letter takes away one occurrence if there is one, and nothing else. */
  lemma RemoveFirstCount(s: seq<char>, c: char)
    ensures multiset(RemoveFirst(s, c)) == multiset(s) - multiset{c}
    ensures |RemoveFirst(s, c)| == if c in s then |s| - 1 else |s|
  {
    var k := IndexOf(s, c);
    if k != -1 {
      assert s == s[..k] + [s[k]] + s[k + 1..];
    } else {
      assert multiset(s)[c] == 0;
    }
  }

  /** Removing the letters of `cs` one after another, in order. */
  function RemoveEach(s: seq<char>, cs: seq<char>): (r: seq<char>)
    ensures |r| <= |s|
  {
    if cs == [] then s
    else RemoveFirst(RemoveEach(s, cs[..|cs| - 1]), cs[|cs| - 1])
  }

  /** The bag loses exactly the letters of `cs` that it holds (multiset difference). */
  lemma {:induction false} RemoveEachCount(s: seq<char>, cs: seq<char>)
    ensures multiset(RemoveEach(s, cs)) == multiset(s) - multiset(cs)
  {
    if cs != [] {
      var init, c := cs[..|cs| - 1], cs[|cs| - 1];
      assert multiset(cs) == multiset(init) + multiset{c} by {
        assert cs == init + [c];
      }
      var before := RemoveEach(s, init);
      RemoveEachCount(s, init);
      RemoveFirstCount(before, c);
      DiffTwice(multiset(s), multiset(init), c);
    }
  }

  lemma DiffTwice(m: multiset<char>, a: multiset<char>, c: char)
    ensures m - a - multiset{c} == m - (a + multiset{c})
  {
    forall x ensures (m - a - multiset{c})[x] == (m - (a + multiset{c}))[x] {
    }
  }
}
