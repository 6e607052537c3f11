/** The feedback algebra of solvers.py: the two-pass scorer `get_feedback`,
    the three-rule matcher `Handler.match_feedback` and the list
    comprehension of `Handler.filter_words`.

    Feedback codes are the source's integers: 1 (exact), 0 (misplaced) and
    -1 (absent). Both functions walk `zip(...)` of their arguments, so
    positions past the shorter argument are left out exactly as `zip` leaves
    them out. */
module Feedback {
  import opened Common

  type Word = string

  predicate ValidCodes(f: seq<int>)
  {
    forall i :: 0 <= i < |f| ==> -1 <= f[i] <= 1
  }

  /** Number of positions `zip(guess, word)` visits. */
  function ZipLen(g: Word, w: Word): nat
  {
    Min(|g|, |w|)
  }

  predicate IsExact(g: Word, w: Word, i: int)
  {
    0 <= i < |g| && i < |w| && g[i] == w[i]
  }

  /** Copies of `c` in the word at the first `n` zipped positions that are
      not exact matches: `target_counts[c]` after the first pass. */
  function Pool(g: Word, w: Word, c: char, n: nat): nat
    requires n <= |g| && n <= |w|
  {
    if n == 0 then 0
    else Pool(g, w, c, n - 1) + (if g[n - 1] != w[n - 1] && w[n - 1] == c then 1 else 0)
  }

  /** Guess positions before `i` that hold `c` and are not exact matches. */
  function MissesBefore(g: Word, w: Word, c: char, i: nat): nat
    requires i <= |g|
  {
    if i == 0 then 0
    else MissesBefore(g, w, c, i - 1) + (if g[i - 1] == c && !IsExact(g, w, i - 1) then 1 else 0)
  }

  /** Guess positions before `n` that hold `c` and are exact matches. */
  function ExactOf(g: Word, w: Word, c: char, n: nat): nat
    requires n <= |g|
  {
    if n == 0 then 0
    else ExactOf(g, w, c, n - 1) + (if g[n - 1] == c && IsExact(g, w, n - 1) then 1 else 0)
  }

  /** The code of guess position `i` when `avail` copies of its letter are
      left in the word once exact matches are taken out: the k-th non-exact
      occurrence of a letter (counting from 0) is misplaced iff k < avail. */
  function Mark(g: Word, w: Word, i: nat, avail: int): int
    requires i < |g|
  {
    if IsExact(g, w, i) then 1
    else if MissesBefore(g, w, g[i], i) < avail then 0
    else -1
  }

  /** The score `get_feedback(guess, word)` stands for. */
  function Score(g: Word, w: Word): seq<int>
  {
    seq(|g|, i requires 0 <= i < |g| => Mark(g, w, i, Pool(g, w, g[i], ZipLen(g, w))))
  }

  /** First pass of solvers.py `get_feedback`: marks the exact matches and
      counts the word letters left over at the other zipped positions. */
  method ExactPass(guess: Word, word: Word) returns (feedback: seq<int>, targetCounts: map<char, int>)
    ensures |feedback| == |guess|
    ensures forall k :: 0 <= k < |guess| ==> feedback[k] == (if IsExact(guess, word, k) then 1 else -1)
    ensures forall c :: Get(targetCounts, c) == Pool(guess, word, c, ZipLen(guess, word))
  {
    feedback := seq(|guess|, _ => -1);
    targetCounts := map[];
    var n := ZipLen(guess, word);
    var i := 0;
    while i < n
      invariant 0 <= i <= n && |feedback| == |guess|
      invariant forall k :: 0 <= k < |guess| ==> feedback[k] == (if k < i && IsExact(guess, word, k) then 1 else -1)
      invariant forall c :: Get(targetCounts, c) == Pool(guess, word, c, i)
    {
      if guess[i] == word[i] {
        feedback := feedback[i := 1];
      } else {
        targetCounts := targetCounts[word[i] := Get(targetCounts, word[i]) + 1];
      }
      i := i + 1;
    }
  }

  /** solvers.py `get_feedback`: the exact pass, then the misplaced pass. */
  method GetFeedback(guess: Word, word: Word) returns (feedback: seq<int>)
    ensures feedback == Score(guess, word)
  {
    var exact, targetCounts := ExactPass(guess, word);
    feedback := MisplacedPass(guess, word, c => Pool(guess, word, c, ZipLen(guess, word)), exact, targetCounts);
  }

  /** The codes the misplaced pass gives when `spare(c)` copies of each
      letter `c` are left in the word once the exact matches are taken out. */
  function Marks(g: Word, w: Word, spare: char -> nat): (f: seq<int>)
    ensures |f| == |g|
  {
    seq(|g|, i requires 0 <= i < |g| => Mark(g, w, i, spare(g[i])))
  }

  /** Copies of `c` the misplaced pass still has to hand out before guess
      position `i`: the spare copies less the misses already served. */
  function Left(g: Word, w: Word, spare: char -> nat, c: char, i: nat): int
    requires i <= |g|
  {
    spare(c) - Min(MissesBefore(g, w, c, i), spare(c))
  }

  /** Passing guess position `i` spends one copy of its letter when the
      position is misplaced, and none otherwise. */
  lemma SpendStep(g: Word, w: Word, spare: char -> nat, i: nat)
    requires i < |g|
    ensures forall c :: c != g[i] ==> Left(g, w, spare, c, i + 1) == Left(g, w, spare, c, i)
    ensures Left(g, w, spare, g[i], i + 1) ==
      if !IsExact(g, w, i) && Left(g, w, spare, g[i], i) > 0 then Left(g, w, spare, g[i], i) - 1 else Left(g, w, spare, g[i], i)
    ensures Marks(g, w, spare)[i] == if IsExact(g, w, i) then 1 else if Left(g, w, spare, g[i], i) > 0 then 0 else -1
  {
  }

  /** The misplaced pass of `get_feedback` (solvers.py, and solver.py and
      Tools/game.py alike): a position not marked exact is misplaced while
      the word has copies of its letter left over, and takes one. */
  method MisplacedPass(guess: Word, word: Word, ghost spare: char -> nat, exact: seq<int>, counts: map<char, int>) returns (feedback: seq<int>)
    requires |exact| == |guess|
    requires forall k :: 0 <= k < |guess| ==> exact[k] == (if IsExact(guess, word, k) then 1 else -1)
    requires forall c :: Get(counts, c) == spare(c)
    ensures feedback == Marks(guess, word, spare)
  {
    feedback := exact;
    var targetCounts := counts;
    ghost var marks := Marks(guess, word, spare);
    var i := 0;
    while i < |guess|
      invariant 0 <= i <= |guess| && |feedback| == |guess|
      invariant forall k :: 0 <= k < i ==> feedback[k] == marks[k]
      invariant forall k :: i <= k < |guess| ==> feedback[k] == (if IsExact(guess, word, k) then 1 else -1)
      invariant forall c {:trigger Get(targetCounts, c)} :: Get(targetCounts, c) == Left(guess, word, spare, c, i)
    {
      SpendStep(guess, word, spare, i);
      ghost var before := targetCounts;
      if feedback[i] == -1 && Get(targetCounts, guess[i]) > 0 {
        feedback := feedback[i := 0];
        targetCounts := targetCounts[guess[i] := Get(targetCounts, guess[i]) - 1];
      }
      forall c ensures Get(targetCounts, c) == Left(guess, word, spare, c, i + 1) {
        assert Get(before, c) == Left(guess, word, spare, c, i);
      }
      i := i + 1;
    }
  }

  /* ---------------------------------------------------------------------
     What the score promises.
     --------------------------------------------------------------------- */

  lemma ScoreShape(g: Word, w: Word)
    ensures |Score(g, w)| == |g|
    ensures ValidCodes(Score(g, w))
    ensures forall i :: 0 <= i < |g| ==> (Score(g, w)[i] == 1 <==> i < |w| && g[i] == w[i])
  {
  }

  /** Guess positions before `n` holding `c` that a feedback credits, that is
      marks exact or misplaced. */
  function Credited(f: seq<int>, g: Word, c: char, n: nat): nat
    requires n <= |f| && n <= |g|
  {
    if n == 0 then 0
    else Credited(f, g, c, n - 1) + (if g[n - 1] == c && f[n - 1] != -1 then 1 else 0)
  }

  /** Guess positions before `n` holding `c` that a feedback marks misplaced. */
  function Claimed(g: Word, f: seq<int>, c: char, n: nat): nat
    requires n <= |g| && n <= |f|
  {
    if n == 0 then 0
    else Claimed(g, f, c, n - 1) + (if f[n - 1] == 0 && g[n - 1] == c then 1 else 0)
  }

  /** How the score's marks for one letter add up: every exact match, and
      misplaced marks until the unclaimed copies run out. */
  lemma {:induction false} ScoreTallies(g: Word, w: Word, c: char, n: nat)
    requires n <= |g|
    ensures Claimed(g, Score(g, w), c, n) == Min(MissesBefore(g, w, c, n), Pool(g, w, c, ZipLen(g, w)))
    ensures Credited(Score(g, w), g, c, n) == ExactOf(g, w, c, n) + Claimed(g, Score(g, w), c, n)
  {
    if n > 0 {
      ScoreTallies(g, w, c, n - 1);
    }
  }

  /** Exact matches plus unclaimed copies are exactly the copies of `c` in
      the zipped part of the word. */
  lemma {:induction false} ExactPlusPool(g: Word, w: Word, c: char, n: nat)
    requires n <= |g| && n <= |w|
    ensures ExactOf(g, w, c, n) + Pool(g, w, c, n) == CountIn(w, c, n)
  {
    if n > 0 {
      ExactPlusPool(g, w, c, n - 1);
    }
  }

  /** Guess positions past the word are never exact. */
  lemma {:induction false} ExactOfZip(g: Word, w: Word, c: char, n: nat)
    requires ZipLen(g, w) <= n <= |g|
    ensures ExactOf(g, w, c, n) == ExactOf(g, w, c, ZipLen(g, w))
  {
    if n > ZipLen(g, w) {
      ExactOfZip(g, w, c, n - 1);
    }
  }

  /** For every letter, the positions the score credits (exact or
      misplaced) never outnumber the letter's copies in the word. */
  lemma ScoreCreditsBounded(g: Word, w: Word, c: char)
    ensures Credited(Score(g, w), g, c, |g|) <= Occ(w, c)
  {
    var z := ZipLen(g, w);
    ScoreTallies(g, w, c, |g|);
    ExactOfZip(g, w, c, |g|);
    ExactPlusPool(g, w, c, z);
    CountInMono(w, c, z, |w|);
  }

  /** A guess letter that the word does not contain is always absent. */
  lemma ScoreAbsentLetter(g: Word, w: Word, i: nat)
    requires i < |g| && g[i] !in w
    ensures Score(g, w)[i] == -1
  {
    var z := ZipLen(g, w);
    ExactPlusPool(g, w, g[i], z);
    CountInMono(w, g[i], z, |w|);
    OccMember(w, g[i]);
  }

  /** The duplicate-letter example: "SPEED" against "ERASE". */
  lemma ScoreSpeedErase()
    ensures Score("SPEED", "ERASE") == [0, -1, 0, 0, -1]
  {
    var g, w := "SPEED", "ERASE";
    assert Pool(g, w, 'S', 5) == 1 && Pool(g, w, 'P', 5) == 0 && Pool(g, w, 'E', 5) == 2 && Pool(g, w, 'D', 5) == 0;
    assert MissesBefore(g, w, 'E', 2) == 0 && MissesBefore(g, w, 'E', 3) == 1;
  }

  /* ---------------------------------------------------------------------
     The matcher.
     --------------------------------------------------------------------- */

  /** Number of positions `zip(feedback, guess, word)` visits. */
  function Zip3(g: Word, w: Word, f: seq<int>): nat
  {
    Min(Min(|f|, |g|), |w|)
  }

  /** Word positions before `n` holding `c` whose feedback is not exact:
      `target_counts[c]` after the first rule. */
  function Unclaimed(g: Word, w: Word, f: seq<int>, c: char, n: nat): nat
    requires n <= |w| && n <= |f|
  {
    if n == 0 then 0
    else Unclaimed(g, w, f, c, n - 1) + (if f[n - 1] != 1 && w[n - 1] == c then 1 else 0)
  }

  /** Rule 1: every exact mark sits on a matching letter. */
  predicate ExactRule(g: Word, w: Word, f: seq<int>)
  {
    forall i :: 0 <= i < Zip3(g, w, f) && f[i] == 1 ==> g[i] == w[i]
  }

  /** Rule 2: every misplaced mark sits on a non-matching letter, and the
      misplaced marks of a letter fit in its unclaimed copies. */
  predicate MisplacedRule(g: Word, w: Word, f: seq<int>)
  {
    var n := Zip3(g, w, f);
    forall i :: 0 <= i < n && f[i] == 0 ==>
      g[i] != w[i] && Claimed(g, f, g[i], n) <= Unclaimed(g, w, f, g[i], n)
  }

  /** Rule 3: an absent mark leaves no unclaimed copy of its letter. */
  predicate AbsentRule(g: Word, w: Word, f: seq<int>)
  {
    var n := Zip3(g, w, f);
    forall i :: 0 <= i < Min(|f|, |g|) && f[i] == -1 ==>
      Unclaimed(g, w, f, g[i], n) <= Claimed(g, f, g[i], n)
  }

  /** What `match_feedback(guess, word, feedback)` accepts. */
  predicate Consistent(g: Word, w: Word, f: seq<int>)
  {
    ExactRule(g, w, f) && MisplacedRule(g, w, f) && AbsentRule(g, w, f)
  }

  lemma {:induction false} ClaimedMono(g: Word, f: seq<int>, c: char, m: nat, n: nat)
    requires m <= n <= |g| && n <= |f|
    ensures Claimed(g, f, c, m) <= Claimed(g, f, c, n)
    decreases n
  {
    if m < n {
      ClaimedMono(g, f, c, m, n - 1);
    }
  }

  /** Rule 1 of `Handler.match_feedback`: walks the zipped positions,
      rejects an exact mark on a mismatched letter and counts every word
      letter whose mark is not exact. */
  method CheckExact(guess: Word, word: Word, feedback: seq<int>) returns (ok: bool, targetCounts: map<char, int>)
    ensures ok == ExactRule(guess, word, feedback)
    ensures ok ==> forall c :: Get(targetCounts, c) == Unclaimed(guess, word, feedback, c, Zip3(guess, word, feedback))
  {
    var n := Zip3(guess, word, feedback);
    targetCounts := map[];
    var i := 0;
    while i < n
      invariant 0 <= i <= n
      invariant forall j :: 0 <= j < i && feedback[j] == 1 ==> guess[j] == word[j]
      invariant forall c :: Get(targetCounts, c) == Unclaimed(guess, word, feedback, c, i)
    {
      if feedback[i] == 1 {
        if guess[i] != word[i] {
          return false, targetCounts;
        }
      } else {
        targetCounts := targetCounts[word[i] := Get(targetCounts, word[i]) + 1];
      }
      i := i + 1;
    }
    return true, targetCounts;
  }

  /** Rule 2 of `Handler.match_feedback`: every misplaced mark must sit on a
      mismatched letter and spends one unclaimed copy of it. */
  method CheckMisplaced(guess: Word, word: Word, feedback: seq<int>, counts: map<char, int>) returns (ok: bool, targetCounts: map<char, int>)
    requires forall c :: Get(counts, c) == Unclaimed(guess, word, feedback, c, Zip3(guess, word, feedback))
    ensures ok == MisplacedRule(guess, word, feedback)
    ensures ok ==> forall c :: Get(targetCounts, c) == Unclaimed(guess, word, feedback, c, Zip3(guess, word, feedback)) - Claimed(guess, feedback, c, Zip3(guess, word, feedback))
  {
    var n := Zip3(guess, word, feedback);
    targetCounts := counts;
    var i := 0;
    while i < n
      invariant 0 <= i <= n
      invariant forall j :: 0 <= j < i && feedback[j] == 0 ==> guess[j] != word[j]
      invariant forall c :: Claimed(guess, feedback, c, i) <= Unclaimed(guess, word, feedback, c, n)
      invariant forall c :: Get(targetCounts, c) == Unclaimed(guess, word, feedback, c, n) - Claimed(guess, feedback, c, i)
    {
      if feedback[i] == 0 {
        if guess[i] == word[i] || Get(targetCounts, guess[i]) == 0 {
          ClaimedMono(guess, feedback, guess[i], i + 1, n);
          return false, targetCounts;
        }
        targetCounts := targetCounts[guess[i] := Get(targetCounts, guess[i]) - 1];
      }
      i := i + 1;
    }
    return true, targetCounts;
  }

  /** Rule 3 of `Handler.match_feedback`: an absent mark is rejected while
      copies of its letter are left unspent. */
  method CheckAbsent(guess: Word, word: Word, feedback: seq<int>, counts: map<char, int>) returns (ok: bool)
    requires forall c :: Get(counts, c) == Unclaimed(guess, word, feedback, c, Zip3(guess, word, feedback)) - Claimed(guess, feedback, c, Zip3(guess, word, feedback))
    ensures ok == AbsentRule(guess, word, feedback)
  {
    var i := 0;
    var m := Min(|feedback|, |guess|);
    while i < m
      invariant 0 <= i <= m
      invariant forall j :: 0 <= j < i && feedback[j] == -1 ==> Get(counts, guess[j]) <= 0
    {
      if feedback[i] == -1 && Get(counts, guess[i]) > 0 {
        return false;
      }
      i := i + 1;
    }
    return true;
  }

  /** solvers.py `Handler.match_feedback`: the three rules in order over one
      `target_counts` dictionary, stopping at the first that fails. */
  method MatchFeedback(guess: Word, word: Word, feedback: seq<int>) returns (ok: bool)
    ensures ok == Consistent(guess, word, feedback)
  {
    var counts;
    ok, counts := CheckExact(guess, word, feedback);
    if !ok {
      return;
    }
    ok, counts := CheckMisplaced(guess, word, feedback, counts);
    if !ok {
      return;
    }
    ok := CheckAbsent(guess, word, feedback, counts);
  }

  /** With the score as feedback, the unclaimed copies are the score's pool. */
  lemma {:induction false} UnclaimedOfScore(g: Word, w: Word, c: char, n: nat)
    requires |g| == |w| && n <= |g|
    ensures Unclaimed(g, w, Score(g, w), c, n) == Pool(g, w, c, n)
  {
    if n > 0 {
      UnclaimedOfScore(g, w, c, n - 1);
    }
  }

  lemma {:induction false} MissesMono(g: Word, w: Word, c: char, m: nat, n: nat)
    requires m <= n <= |g|
    ensures MissesBefore(g, w, c, m) <= MissesBefore(g, w, c, n)
    decreases n
  {
    if m < n {
      MissesMono(g, w, c, m, n - 1);
    }
  }

  /** Round trip: a word always matches its own feedback. */
  lemma RoundTrip(g: Word, w: Word)
    requires |g| == |w|
    ensures Consistent(g, w, Score(g, w))
  {
    var f := Score(g, w);
    var n := |g|;
    assert Zip3(g, w, f) == n && ZipLen(g, w) == n;
    forall c ensures Unclaimed(g, w, f, c, n) == Pool(g, w, c, n)
      && Claimed(g, f, c, n) == Min(MissesBefore(g, w, c, n), Pool(g, w, c, n))
    {
      UnclaimedOfScore(g, w, c, n);
      ScoreTallies(g, w, c, n);
    }
    forall i | 0 <= i < n && f[i] == -1
      ensures Unclaimed(g, w, f, g[i], n) <= Claimed(g, f, g[i], n)
    {
      MissesMono(g, w, g[i], i, n);
    }
  }

  lemma {:induction false} ClaimedWitness(g: Word, f: seq<int>, c: char, n: nat)
    requires n <= |g| && n <= |f| && Claimed(g, f, c, n) > 0
    ensures exists j :: 0 <= j < n && f[j] == 0 && g[j] == c
  {
    if !(f[n - 1] == 0 && g[n - 1] == c) {
      ClaimedWitness(g, f, c, n - 1);
    }
  }

  /** Soundness of the matcher on equal lengths: exact marks match, misplaced
      marks do not, and for a letter marked absent the word holds exactly as
      many copies outside exact positions as there are misplaced marks of
      that letter. */
  lemma ConsistentSound(g: Word, w: Word, f: seq<int>)
    requires |g| == |w| == |f| && Consistent(g, w, f)
    ensures forall i :: 0 <= i < |g| && f[i] == 1 ==> w[i] == g[i]
    ensures forall i :: 0 <= i < |g| && f[i] == 0 ==> w[i] != g[i]
    ensures forall i :: 0 <= i < |g| && f[i] == -1 ==> Unclaimed(g, w, f, g[i], |g|) == Claimed(g, f, g[i], |g|)
  {
    var n := |g|;
    assert Zip3(g, w, f) == n;
    forall i | 0 <= i < n && f[i] == -1
      ensures Unclaimed(g, w, f, g[i], n) == Claimed(g, f, g[i], n)
    {
      if Claimed(g, f, g[i], n) > 0 {
        ClaimedWitness(g, f, g[i], n);
      }
    }
  }

  /** The matcher is not the score in disguise: it accepts "CAX" for the
      feedback that "BCA" earns against guess "AAC", although "CAX" itself
      would earn a different feedback. */
  lemma MatcherIncomplete()
    ensures Score("AAC", "BCA") == [0, -1, 0]
    ensures Consistent("AAC", "CAX", [0, -1, 0])
    ensures Score("AAC", "CAX") == [-1, 1, 0]
  {
    var g, f := "AAC", [0, -1, 0];
    assert Pool(g, "BCA", 'A', 3) == 1 && Pool(g, "BCA", 'C', 3) == 1;
    assert MissesBefore(g, "BCA", 'A', 1) == 1;
    assert Pool(g, "CAX", 'A', 3) == 0 && Pool(g, "CAX", 'C', 3) == 1;
    assert Unclaimed(g, "CAX", f, 'A', 3) == 1 && Claimed(g, f, 'A', 3) == 1;
    assert Unclaimed(g, "CAX", f, 'C', 3) == 1 && Claimed(g, f, 'C', 3) == 1;
  }

  /* ---------------------------------------------------------------------
     Filtering.
     --------------------------------------------------------------------- */

  /** `[word for word in words if match_feedback(guess, word, feedback)]` */
  function Filter(words: seq<Word>, guess: Word, feedback: seq<int>): seq<Word>
  {
    if words == [] then []
    else (if Consistent(guess, words[0], feedback) then [words[0]] else []) + Filter(words[1..], guess, feedback)
  }

  /** Filtering a list extended by one word extends the filtered list by
      that word when it is accepted. */
  lemma {:induction false} FilterSnoc(words: seq<Word>, x: Word, guess: Word, feedback: seq<int>)
    ensures Filter(words + [x], guess, feedback) ==
      Filter(words, guess, feedback) + (if Consistent(guess, x, feedback) then [x] else [])
  {
    if words == [] {
      assert Filter([x], guess, feedback) == (if Consistent(guess, x, feedback) then [x] else []) + Filter([], guess, feedback);
    } else {
      FilterSnoc(words[1..], x, guess, feedback);
      assert (words + [x])[0] == words[0];
      assert (words + [x])[1..] == words[1..] + [x];
    }
  }

  ghost predicate IsSubsequence<T>(a: seq<T>, b: seq<T>)
    decreases |b|
  {
    a == [] || (b != [] && ((a[0] == b[0] && IsSubsequence(a[1..], b[1..])) || IsSubsequence(a, b[1..])))
  }

  /** Filtering keeps exactly the accepted words, each as often as before,
      in their original order, so the list never grows. */
  lemma {:induction false} FilterKeeps(words: seq<Word>, guess: Word, feedback: seq<int>)
    ensures |Filter(words, guess, feedback)| <= |words|
    ensures IsSubsequence(Filter(words, guess, feedback), words)
    ensures forall w :: Occ(Filter(words, guess, feedback), w) == (if Consistent(guess, w, feedback) then Occ(words, w) else 0)
  {
    if words != [] {
      var rest := Filter(words[1..], guess, feedback);
      FilterKeeps(words[1..], guess, feedback);
      assert words == [words[0]] + words[1..];
      if Consistent(guess, words[0], feedback) {
        var kept := [words[0]] + rest;
        assert Filter(words, guess, feedback) == kept;
        assert kept[0] == words[0] && kept[1..] == rest;
        forall w ensures Occ(kept, w) == (if Consistent(guess, w, feedback) then Occ(words, w) else 0) {
          OccAppend([words[0]], rest, w);
          OccAppend([words[0]], words[1..], w);
          SingletonOcc(words[0], w);
        }
      } else {
        assert Filter(words, guess, feedback) == rest;
        forall w ensures Occ(rest, w) == (if Consistent(guess, w, feedback) then Occ(words, w) else 0) {
          OccAppend([words[0]], words[1..], w);
          SingletonOcc(words[0], w);
        }
      }
    }
  }

  lemma SingletonOcc(x: Word, w: Word)
    ensures Occ([x], w) == if x == w then 1 else 0
  {
    assert CountIn([x], w, 0) == 0;
  }

  /** Filtering twice with the same guess and feedback changes nothing more. */
  lemma {:induction false} FilterIdempotent(words: seq<Word>, guess: Word, feedback: seq<int>)
    ensures Filter(Filter(words, guess, feedback), guess, feedback) == Filter(words, guess, feedback)
  {
    if words != [] {
      FilterIdempotent(words[1..], guess, feedback);
      var rest := Filter(words[1..], guess, feedback);
      if Consistent(guess, words[0], feedback) {
        var kept := [words[0]] + rest;
        assert Filter(words, guess, feedback) == kept;
        assert kept[0] == words[0] && kept[1..] == rest;
      } else {
        assert Filter(words, guess, feedback) == rest;
      }
    }
  }

  /** The secret word survives filtering with the feedback it produces. */
  lemma FilterKeepsSecret(words: seq<Word>, guess: Word, secret: Word)
    requires secret in words && |guess| == |secret|
    ensures secret in Filter(words, guess, Score(guess, secret))
  {
    RoundTrip(guess, secret);
    FilterKeeps(words, guess, Score(guess, secret));
    OccMember(words, secret);
    OccMember(Filter(words, guess, Score(guess, secret)), secret);
  }
}
