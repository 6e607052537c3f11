/** What `PositionHandler` adds to a guess in solvers.py: the letter counts
    of `PositionHandler.get_counts`, and the filling of green positions with
    the most frequent letters that the guess does not already use at its
    other positions. */
module Positions {
  import opened Common
  import opened Feedback
  import opened Strategies

  /** What `PositionHandler.get_counts` returns over the first `n`
      positions. Its loop starts a fresh dictionary at every free position,
      so the result is the histogram of the last free position, with every
      value doubled unless that position holds a single letter, and empty
      when no position is free. */
  function LastFreeCounts(words: seq<Word>, green: seq<bool>, n: nat): Counts<char>
    requires Uniform(words, |green|) && n <= |green|
  {
    if n == 0 then []
    else if green[n - 1] then LastFreeCounts(words, green, n - 1)
    else
      var h := Histogram(Column(words, n - 1));
      if |h| == 1 then h else Double(h)
  }

  lemma {:induction false} LastFreeSkipsGreen(words: seq<Word>, green: seq<bool>, n: nat, j: nat)
    requires Uniform(words, |green|) && j < n <= |green| && forall i :: j < i < n ==> green[i]
    ensures LastFreeCounts(words, green, n) == LastFreeCounts(words, green, j + 1)
  {
    if n > j + 1 {
      LastFreeSkipsGreen(words, green, n - 1, j);
    }
  }

  /** The counts `get_counts` returns are the letter counts of the last free
      position `j` only (twice over when several letters remain there), not
      a sum over the free positions. */
  lemma LastFreeTotals(words: seq<Word>, green: seq<bool>, j: nat)
    requires Uniform(words, |green|) && j < |green| && !green[j] && forall i :: j < i < |green| ==> green[i]
    ensures DistinctKeys(LastFreeCounts(words, green, |green|))
    ensures forall c ::
      Total(LastFreeCounts(words, green, |green|), c) == (if |Histogram(Column(words, j))| == 1 then 1 else 2) * Occ(Column(words, j), c)
  {
    LastFreeSkipsGreen(words, green, |green|, j);
    var h := Histogram(Column(words, j));
    HistogramFacts(Column(words, j));
    DoubleFacts(h);
    if |h| != 1 {
      forall i, k | 0 <= i < k < |Double(h)| ensures Double(h)[i].0 != Double(h)[k].0 {
        assert Keys(Double(h))[i] == Keys(h)[i] && Keys(Double(h))[k] == Keys(h)[k];
      }
    }
  }

  /** With every position green, `get_counts` returns an empty dictionary. */
  lemma {:induction false} NoFreeNoCounts(words: seq<Word>, green: seq<bool>, n: nat)
    requires Uniform(words, |green|) && n <= |green| && forall i :: 0 <= i < n ==> green[i]
    ensures LastFreeCounts(words, green, n) == []
  {
    if n > 0 {
      NoFreeNoCounts(words, green, n - 1);
    }
  }

  /** Some guess position before `n` that is not green holds `c`. */
  predicate UsedFree(guess: Word, green: seq<bool>, c: char, n: nat)
    requires n <= |green| && n <= |guess|
  {
    exists i :: 0 <= i < n && !green[i] && guess[i] == c
  }

  /** `del counts[guess[i]]` for every position `i < n` that is not green and
      whose letter is still a key. */
  function Pruned(counts: Counts<char>, guess: Word, green: seq<bool>, n: nat): Counts<char>
    requires n <= |green| && n <= |guess|
  {
    if n == 0 then counts
    else if !green[n - 1] then Remove(Pruned(counts, guess, green, n - 1), guess[n - 1])
    else Pruned(counts, guess, green, n - 1)
  }

  /** The deletions leave exactly the letters the guess does not use at a
      position that is not green, each with its count. */
  lemma {:induction false} PrunedFacts(counts: Counts<char>, guess: Word, green: seq<bool>, n: nat)
    requires n <= |green| && n <= |guess|
    ensures forall c :: c in Keys(Pruned(counts, guess, green, n)) <==> c in Keys(counts) && !UsedFree(guess, green, c, n)
    ensures forall c :: Total(Pruned(counts, guess, green, n), c) == if UsedFree(guess, green, c, n) then 0 else Total(counts, c)
    ensures DistinctKeys(counts) ==> DistinctKeys(Pruned(counts, guess, green, n))
  {
    if n > 0 {
      PrunedFacts(counts, guess, green, n - 1);
      var p := Pruned(counts, guess, green, n - 1);
      if !green[n - 1] {
        RemoveFacts(p, guess[n - 1]);
      }
      forall c ensures UsedFree(guess, green, c, n) <==> UsedFree(guess, green, c, n - 1) || (!green[n - 1] && guess[n - 1] == c) {
        if UsedFree(guess, green, c, n) {
          var i :| 0 <= i < n && !green[i] && guess[i] == c;
          if i < n - 1 {
            assert UsedFree(guess, green, c, n - 1);
          }
        }
      }
    }
  }

  /** The first loop of `PositionHandler.make_guess`. */
  method PruneCounts(counts: Counts<char>, guess: Word, green: seq<bool>) returns (pruned: Counts<char>)
    requires |green| <= |guess|
    ensures pruned == Pruned(counts, guess, green, |green|)
  {
    pruned := counts;
    var i := 0;
    while i < |green|
      invariant 0 <= i <= |green|
      invariant pruned == Pruned(counts, guess, green, i)
    {
      if !green[i] {
        pruned := Remove(pruned, guess[i]);
      }
      i := i + 1;
    }
  }

  /** Green positions before `i`. */
  function GreenRank(green: seq<bool>, i: nat): nat
    requires i <= |green|
  {
    if i == 0 then 0 else GreenRank(green, i - 1) + (if green[i - 1] then 1 else 0)
  }

  lemma {:induction false} GreenRankMono(green: seq<bool>, i: nat, j: nat)
    requires i < j <= |green| && green[i]
    ensures GreenRank(green, i) < GreenRank(green, j)
    decreases j
  {
    if j > i + 1 {
      GreenRankMono(green, i, j - 1);
    }
  }

  /** The guess after popping from `stack`: the green position of rank `r`
      (counting green positions from 0, left to right) receives the `r`-th
      letter from the top of the stack while the stack lasts; every other
      position keeps its letter. */
  function Filled(guess: Word, stack: seq<char>, green: seq<bool>): Word
    requires |green| <= |guess|
  {
    seq(|guess|, i requires 0 <= i < |guess| =>
      if i < |green| && green[i] && GreenRank(green, i) < |stack| then stack[|stack| - 1 - GreenRank(green, i)] else guess[i])
  }

  /** The second loop of `PositionHandler.make_guess`:
      `guess[i] = sorted_letters.pop()` at every green position while
      letters remain. */
  method FillGreen(guess: Word, stack: seq<char>, green: seq<bool>) returns (filled: Word)
    requires |green| <= |guess|
    ensures filled == Filled(guess, stack, green)
  {
    filled := guess;
    var letters := stack;
    var i := 0;
    while i < |green|
      invariant 0 <= i <= |green| && |filled| == |guess|
      invariant |letters| == |stack| - Min(GreenRank(green, i), |stack|)
      invariant letters == stack[..|letters|]
      invariant forall j :: 0 <= j < |guess| ==> filled[j] == if j < i then Filled(guess, stack, green)[j] else guess[j]
    {
      if green[i] && letters != [] {
        filled := filled[i := letters[|letters| - 1]];
        letters := letters[..|letters| - 1];
      }
      i := i + 1;
    }
  }

  /** The green positions of rank below the number of letters available. */
  predicate FilledAt(green: seq<bool>, available: nat, i: int)
  {
    0 <= i < |green| && green[i] && GreenRank(green, i) < available
  }

  /** `PositionHandler.make_guess` once `construct_guess` and `get_counts`
      have run: when some position is green, delete from `counts` the
      letters of the positions that are not green, sort the remaining
      letters by count (ties in dictionary order) and fill the green
      positions from the most frequent letter down. Returns the guess and
      the dictionary after the deletions. */
  function PositionFill(guess: Word, counts: Counts<char>, green: seq<bool>): (Word, Counts<char>)
    requires |green| <= |guess|
  {
    if exists i :: 0 <= i < |green| && green[i] then
      var pruned := Pruned(counts, guess, green, |green|);
      (Filled(guess, Keys(SortByCount(pruned, false)), green), pruned)
    else (guess, counts)
  }

  /** Which positions the fill changes: none when nothing is green;
      otherwise only green positions, as many as there are letters left. */
  lemma FillPositions(guess: Word, counts: Counts<char>, green: seq<bool>)
    requires |green| <= |guess|
    ensures |PositionFill(guess, counts, green).0| == |guess|
    ensures (forall i :: 0 <= i < |green| ==> !green[i]) ==> PositionFill(guess, counts, green) == (guess, counts)
    ensures forall i :: 0 <= i < |guess| && !FilledAt(green, |Pruned(counts, guess, green, |green|)|, i) ==>
      PositionFill(guess, counts, green).0[i] == guess[i]
  {
    SortKeys(Pruned(counts, guess, green, |green|), false);
  }

  /** The letter the fill writes at a filled position: the item of rank
      `GreenRank` from the top of the sorted, pruned counts, which is a key
      of the counts with its count there, and unused at positions that are
      not green. */
  lemma FilledLetter(guess: Word, counts: Counts<char>, green: seq<bool>, i: nat)
    requires |green| <= |guess| && DistinctKeys(counts) && exists j :: 0 <= j < |green| && green[j]
    requires FilledAt(green, |Pruned(counts, guess, green, |green|)|, i)
    ensures |SortByCount(Pruned(counts, guess, green, |green|), false)| == |Pruned(counts, guess, green, |green|)|
    ensures PositionFill(guess, counts, green).0[i] ==
      SortByCount(Pruned(counts, guess, green, |green|), false)[|Pruned(counts, guess, green, |green|)| - 1 - GreenRank(green, i)].0
    ensures PositionFill(guess, counts, green).0[i] in Keys(counts)
    ensures !UsedFree(guess, green, PositionFill(guess, counts, green).0[i], |green|)
    ensures Total(counts, PositionFill(guess, counts, green).0[i]) ==
      SortByCount(Pruned(counts, guess, green, |green|), false)[|Pruned(counts, guess, green, |green|)| - 1 - GreenRank(green, i)].1
  {
    var p := Pruned(counts, guess, green, |green|);
    var s := SortByCount(p, false);
    SortKeys(p, false);
    PrunedFacts(counts, guess, green, |green|);
    SortedEntries(p, false);
    var a := |p| - 1 - GreenRank(green, i);
    assert PositionFill(guess, counts, green).0 == Filled(guess, Keys(s), green);
    assert PositionFill(guess, counts, green).0[i] == s[a].0;
    assert s[a].0 in Keys(p);
  }

  /** Two filled positions get different letters, the left one with at
      least the count of the right one. */
  lemma FilledPair(guess: Word, counts: Counts<char>, green: seq<bool>, i: nat, j: nat)
    requires |green| <= |guess| && DistinctKeys(counts) && exists k :: 0 <= k < |green| && green[k]
    requires FilledAt(green, |Pruned(counts, guess, green, |green|)|, i)
    requires FilledAt(green, |Pruned(counts, guess, green, |green|)|, j) && i < j
    ensures PositionFill(guess, counts, green).0[i] != PositionFill(guess, counts, green).0[j]
    ensures Total(counts, PositionFill(guess, counts, green).0[i]) >= Total(counts, PositionFill(guess, counts, green).0[j])
  {
    var p := Pruned(counts, guess, green, |green|);
    PrunedFacts(counts, guess, green, |green|);
    SortedEntries(p, false);
    FilledLetter(guess, counts, green, i);
    FilledLetter(guess, counts, green, j);
    GreenRankMono(green, i, j);
  }

  /** The letters the fill writes are keys of the counts, never letters the
      guess keeps at a position that is not green, pairwise distinct, and
      their counts do not increase from left to right. */
  lemma FillLetters(guess: Word, counts: Counts<char>, green: seq<bool>)
    requires |green| <= |guess| && DistinctKeys(counts) && exists i :: 0 <= i < |green| && green[i]
    ensures forall i :: FilledAt(green, |Pruned(counts, guess, green, |green|)|, i) ==>
      PositionFill(guess, counts, green).0[i] in Keys(counts) &&
      !UsedFree(guess, green, PositionFill(guess, counts, green).0[i], |green|)
    ensures forall i, j ::
      (FilledAt(green, |Pruned(counts, guess, green, |green|)|, i) && FilledAt(green, |Pruned(counts, guess, green, |green|)|, j) && i < j) ==>
      PositionFill(guess, counts, green).0[i] != PositionFill(guess, counts, green).0[j] &&
      Total(counts, PositionFill(guess, counts, green).0[i]) >= Total(counts, PositionFill(guess, counts, green).0[j])
  {
    var n := |Pruned(counts, guess, green, |green|)|;
    forall i | FilledAt(green, n, i)
      ensures PositionFill(guess, counts, green).0[i] in Keys(counts)
      ensures !UsedFree(guess, green, PositionFill(guess, counts, green).0[i], |green|)
    {
      FilledLetter(guess, counts, green, i);
    }
    forall i, j | FilledAt(green, n, i) && FilledAt(green, n, j) && i < j
      ensures PositionFill(guess, counts, green).0[i] != PositionFill(guess, counts, green).0[j]
      ensures Total(counts, PositionFill(guess, counts, green).0[i]) >= Total(counts, PositionFill(guess, counts, green).0[j])
    {
      FilledPair(guess, counts, green, i, j);
    }
  }
}
