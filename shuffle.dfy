/** `shuffleArray`: the Fisher–Yates shuffle, in place on an array. The random
    index chosen at step `i` (`Math.floor(Math.random() * (i + 1))`) is supplied
    by the caller as `picks[i]`. */
module Shuffle {

  /** `picks` holds a choice in `[0, i]` for every step `i` of a shuffle of `n` elements
      (`picks[0]` is never used). */
  predicate ValidPicks(picks: seq<int>, n: int) {
    |picks| >= n && forall i :: 0 < i < n ==> 0 <= picks[i] <= i
  }

  /** Exchanging two positions keeps the same elements. */
  function Swap<T>(s: seq<T>, i: int, j: int): (r: seq<T>)
    requires 0 <= i < |s| && 0 <= j < |s|
    ensures |r| == |s| && multiset(r) == multiset(s)
  {
    s[i := s[j]][j := s[i]]
  }

  /** The array after the steps `|s| - 1`, `|s| - 2`, ..., `i + 1` of the loop,
      that is, at the loop head when the counter is `i`. */
  function Steps<T>(s: seq<T>, picks: seq<int>, i: int): (r: seq<T>)
    requires 0 <= i && ValidPicks(picks, |s|)
    ensures |r| == |s| && multiset(r) == multiset(s)
    decreases |s| - i
  {
    if i >= |s| - 1 then s
    else Swap(Steps(s, picks, i + 1), i + 1, picks[i + 1])
  }

  /** The result of shuffling `s` with the choices `picks`: all steps down to 1. */
  function Shuffled<T>(s: seq<T>, picks: seq<int>): (r: seq<T>)
    requires ValidPicks(picks, |s|)
  {
    Steps(s, picks, 0)
  }

  /** The loop of `shuffleArray`: for `i` from the last index down to 1, swap
      positions `i` and `picks[i]`. */
  method ShuffleArray<T>(a: array<T>, picks: seq<int>)
    requires ValidPicks(picks, a.Length)
    modifies a
    ensures a[..] == Shuffled(old(a[..]), picks)
    ensures multiset(a[..]) == multiset(old(a[..]))
  {
    var i := a.Length - 1;
    while i > 0
      invariant -1 <= i < a.Length
      invariant a[..] == Steps(old(a[..]), picks, if i < 0 then 0 else i)
    {
      var j := picks[i];
      a[i], a[j] := a[j], a[i];
      i := i - 1;
    }
  }
}
