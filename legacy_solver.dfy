/** The older solver of solver.py: a second two-pass scorer that starts
    from the letter counts of the whole answer, a stricter matcher that
    bans every letter marked absent, and a guess that balances letter
    frequency against letter diversity. */
module LegacySolver {
  import opened Common
  import opened Feedback

  /* ---------------------------------------------------------------------
     The scorer `get_feedback(guess, answer)`.
     --------------------------------------------------------------------- */

  lemma OccAbsent(s: string)
    ensures forall c :: c !in s ==> Occ(s, c) == 0
  {
    forall c | c !in s {
      OccMember(s, c);
    }
  }

  /** `Counter(s)`: every letter of `s` with its number of occurrences. */
  function Counter(s: string): (m: map<char, int>)
    ensures forall c :: Get(m, c) == Occ(s, c)
  {
    OccAbsent(s);
    map c | c in s :: Occ(s, c)
  }

  /** The exact matches of a letter are copies of it in the answer; when the
      guess is at least as long as the answer, the copies left over are the
      non-exact copies at zipped positions that solvers.py counts. */
  lemma ExactBounded(g: Word, w: Word, c: char)
    ensures ExactOf(g, w, c, |g|) <= Occ(w, c)
    ensures |g| >= |w| ==> Occ(w, c) - ExactOf(g, w, c, |g|) == Pool(g, w, c, ZipLen(g, w))
  {
    var z := ZipLen(g, w);
    ExactOfZip(g, w, c, |g|);
    ExactPlusPool(g, w, c, z);
    CountInMono(w, c, z, |w|);
  }

  /** `answer_counts[c]` after the exact pass: the copies of `c` in the whole
      answer less the exact matches of `c`. */
  function Spare(g: Word, w: Word, c: char): nat
  {
    ExactBounded(g, w, c);
    Occ(w, c) - ExactOf(g, w, c, |g|)
  }

  /** The score solver.py's `get_feedback` stands for. */
  function LegacyScore(g: Word, w: Word): seq<int>
  {
    Marks(g, w, c => Spare(g, w, c))
  }

  /** solver.py `get_feedback`: count the whole answer, take out the exact
      matches, then run the misplaced pass. */
  method LegacyFeedback(guess: Word, answer: Word) returns (feedback: seq<int>)
    ensures feedback == LegacyScore(guess, answer)
  {
    var exact := seq(|guess|, _ => -1);
    var counts := Counter(answer);
    var n := ZipLen(guess, answer);
    var i := 0;
    while i < n
      invariant 0 <= i <= n && |exact| == |guess|
      invariant forall k :: 0 <= k < |guess| ==> exact[k] == (if k < i && IsExact(guess, answer, k) then 1 else -1)
      invariant forall c {:trigger Get(counts, c)} :: Get(counts, c) == Occ(answer, c) - ExactOf(guess, answer, c, i)
    {
      ghost var before := counts;
      if guess[i] == answer[i] {
        exact := exact[i := 1];
        counts := counts[guess[i] := Get(counts, guess[i]) - 1];
      }
      forall c ensures Get(counts, c) == Occ(answer, c) - ExactOf(guess, answer, c, i + 1) {
        assert Get(before, c) == Occ(answer, c) - ExactOf(guess, answer, c, i);
      }
      i := i + 1;
    }
    forall c ensures Get(counts, c) == Spare(guess, answer, c) {
      assert Get(counts, c) == Occ(answer, c) - ExactOf(guess, answer, c, n);
      ExactOfZip(guess, answer, c, |guess|);
    }
    feedback := MisplacedPass(guess, answer, c => Spare(guess, answer, c), exact, counts);
  }

  /** Unless the answer is longer than the guess, both scorers agree. */
  lemma LegacyAgrees(g: Word, w: Word)
    requires |g| >= |w|
    ensures LegacyScore(g, w) == Score(g, w)
  {
    forall i | 0 <= i < |g| ensures LegacyScore(g, w)[i] == Score(g, w)[i] {
      ExactBounded(g, w, g[i]);
    }
  }

  /** With a longer answer they differ: solver.py also counts the answer's
      letters past the end of the guess. */
  lemma LegacyLongerAnswer()
    ensures LegacyScore("A", "BA") == [0]
    ensures Score("A", "BA") == [-1]
  {
    assert Occ("BA", 'A') == 1 by {
      assert CountIn("BA", 'A', 1) == 0;
    }
    assert ExactOf("A", "BA", 'A', 1) == 0;
    assert Spare("A", "BA", 'A') == 1;
    assert LegacyScore("A", "BA")[0] == Mark("A", "BA", 0, 1) == 0;
    assert Pool("A", "BA", 'A', 1) == 0;
    assert MissesBefore("A", "BA", 'A', 0) == 0;
  }

  /* ---------------------------------------------------------------------
     The matcher `Solver.match_feedback`.
     --------------------------------------------------------------------- */

  /** The matcher reads `word[i]` at zipped positions; shorter words make
      the source raise IndexError. */
  predicate Fits(g: Word, w: Word, f: seq<int>)
  {
    Min(|g|, |f|) <= |w|
  }

  /** What `Solver.match_feedback` accepts: at every zipped position a 1 is
      an exact match and a -1 is a letter missing from the word; a 0 is a
      letter of the word at another position, with a copy of it left after
      the earlier 0s holding it. */
  predicate LegacyConsistent(g: Word, w: Word, f: seq<int>)
    requires Fits(g, w, f)
  {
    LegacyExactRule(g, w, f) && LegacyMisplacedRule(g, w, f)
  }

  /** The exact and absent rules of that predicate. */
  predicate LegacyExactRule(g: Word, w: Word, f: seq<int>)
    requires Fits(g, w, f)
  {
    forall i :: 0 <= i < Min(|g|, |f|) ==> (f[i] == 1 ==> w[i] == g[i]) && (f[i] == -1 ==> g[i] !in w)
  }

  /** The misplaced rule of that predicate. */
  predicate LegacyMisplacedRule(g: Word, w: Word, f: seq<int>)
    requires Fits(g, w, f)
  {
    forall i :: 0 <= i < Min(|g|, |f|) ==> MisplacedAt(g, w, f, i)
  }

  /** A 0 at zipped position `i` is a letter of the word at another
      position, with a copy left after the earlier 0s holding it. */
  predicate MisplacedAt(g: Word, w: Word, f: seq<int>, i: nat)
    requires i < |g| && i < |f| && i < |w|
  {
    f[i] == 0 ==> g[i] in w && w[i] != g[i] && Claimed(g, f, g[i], i) < Occ(w, g[i])
  }

  /** `Solver.match_feedback`: the exact and absent checks, then the
      misplaced checks. */
  method LegacyMatch(guess: Word, word: Word, feedback: seq<int>) returns (ok: bool)
    requires Fits(guess, word, feedback)
    ensures ok == LegacyConsistent(guess, word, feedback)
  {
    ok := LegacyCheckExact(guess, word, feedback);
    if ok {
      ok := LegacyCheckMisplaced(guess, word, feedback);
    }
  }

  /** The first loop of `Solver.match_feedback`: a 1 must be an exact match
      and a -1 a letter missing from the word. */
  method LegacyCheckExact(guess: Word, word: Word, feedback: seq<int>) returns (ok: bool)
    requires Fits(guess, word, feedback)
    ensures ok == LegacyExactRule(guess, word, feedback)
  {
    var n := Min(|guess|, |feedback|);
    var i := 0;
    while i < n
      invariant 0 <= i <= n
      invariant forall k :: 0 <= k < i ==> (feedback[k] == 1 ==> word[k] == guess[k]) && (feedback[k] == -1 ==> guess[k] !in word)
    {
      if feedback[i] == 1 && word[i] != guess[i] {
        return false;
      } else if feedback[i] == -1 && guess[i] in word {
        return false;
      }
      i := i + 1;
    }
    return true;
  }

  /** The second loop of `Solver.match_feedback`: a 0 must be a letter of
      the word at another position, with a copy of it left in a `Counter`
      of the word, which it then spends. */
  method LegacyCheckMisplaced(guess: Word, word: Word, feedback: seq<int>) returns (ok: bool)
    requires Fits(guess, word, feedback)
    ensures ok == LegacyMisplacedRule(guess, word, feedback)
  {
    var n := Min(|guess|, |feedback|);
    var counts := Counter(word);
    var i := 0;
    while i < n
      invariant 0 <= i <= n
      invariant forall c {:trigger Get(counts, c)} :: Get(counts, c) == Occ(word, c) - Claimed(guess, feedback, c, i)
      invariant forall k :: 0 <= k < i ==> MisplacedAt(guess, word, feedback, k)
    {
      ghost var before := counts;
      if feedback[i] == 0 {
        assert Get(counts, guess[i]) == Occ(word, guess[i]) - Claimed(guess, feedback, guess[i], i);
        if guess[i] !in word || word[i] == guess[i] || Get(counts, guess[i]) <= 0 {
          assert !MisplacedAt(guess, word, feedback, i);
          return false;
        }
        counts := counts[guess[i] := Get(counts, guess[i]) - 1];
      }
      forall c ensures Get(counts, c) == Occ(word, c) - Claimed(guess, feedback, c, i + 1) {
        assert Get(before, c) == Occ(word, c) - Claimed(guess, feedback, c, i);
      }
      i := i + 1;
    }
    return true;
  }

  /** What an accepted word is known to satisfy: exact letters at 1s,
      other letters at 0s, letters missing from the word at -1s, and for
      every letter no more 0s than copies in the word. */
  lemma LegacySound(g: Word, w: Word, f: seq<int>)
    requires Fits(g, w, f) && LegacyConsistent(g, w, f)
    ensures forall i :: 0 <= i < Min(|g|, |f|) && f[i] == 1 ==> w[i] == g[i]
    ensures forall i :: 0 <= i < Min(|g|, |f|) && f[i] == 0 ==> w[i] != g[i]
    ensures forall i :: 0 <= i < Min(|g|, |f|) && f[i] == -1 ==> g[i] !in w
    ensures forall c :: Claimed(g, f, c, Min(|g|, |f|)) <= Occ(w, c)
  {
    forall i | 0 <= i < Min(|g|, |f|) && f[i] == 0 ensures w[i] != g[i] {
      assert MisplacedAt(g, w, f, i);
    }
    forall c ensures Claimed(g, f, c, Min(|g|, |f|)) <= Occ(w, c) {
      ClaimedBound(g, w, f, c, Min(|g|, |f|));
    }
  }

  lemma {:induction false} ClaimedBound(g: Word, w: Word, f: seq<int>, c: char, m: nat)
    requires Fits(g, w, f) && LegacyConsistent(g, w, f) && m <= Min(|g|, |f|)
    ensures Claimed(g, f, c, m) <= Occ(w, c)
  {
    if m > 0 {
      ClaimedBound(g, w, f, c, m - 1);
      assert MisplacedAt(g, w, f, m - 1);
    }
  }

  /** A word is accepted with its own score exactly when no letter the
      score marks absent occurs in it: the matcher bans letters outright,
      where the scorer marks surplus copies of a present letter absent. */
  lemma LegacyRoundTrip(g: Word, w: Word)
    requires |g| == |w|
    ensures LegacyConsistent(g, w, LegacyScore(g, w)) <==>
      forall i :: 0 <= i < |g| && LegacyScore(g, w)[i] == -1 ==> g[i] !in w
  {
    var f := LegacyScore(g, w);
    LegacyAgrees(g, w);
    ScoreShape(g, w);
    if forall i :: 0 <= i < |g| && f[i] == -1 ==> g[i] !in w {
      forall i | 0 <= i < |g| && f[i] == 0 ensures MisplacedAt(g, w, f, i) {
        var c := g[i];
        ScoreTallies(g, w, c, i);
        ExactPlusPool(g, w, c, |g|);
        CountInBounds(w, c, |w|);
        OccMember(w, c);
      }
    }
  }

  /** The true answer can be rejected: "AB" scores [1, -1] against "AA",
      and the matcher bans the A the 1 needs. */
  lemma LegacyRejectsAnswer()
    ensures LegacyScore("AA", "AB") == [1, -1]
    ensures !LegacyConsistent("AA", "AB", [1, -1])
  {
    assert Occ("AB", 'A') == 1 by {
      assert CountIn("AB", 'A', 1) == 1;
    }
    assert ExactOf("AA", "AB", 'A', 2) == 1;
    assert Spare("AA", "AB", 'A') == 0;
    assert IsExact("AA", "AB", 0) && !IsExact("AA", "AB", 1);
    assert LegacyScore("AA", "AB")[0] == Mark("AA", "AB", 0, Spare("AA", "AB", 'A')) == 1;
    assert LegacyScore("AA", "AB")[1] == Mark("AA", "AB", 1, Spare("AA", "AB", 'A')) == -1;
    assert "AA"[1] == 'A' && 'A' in "AB";
  }

  /* ---------------------------------------------------------------------
     `Solver.filter_words`.
     --------------------------------------------------------------------- */

  predicate AllFit(words: seq<Word>, g: Word, f: seq<int>)
  {
    forall k :: 0 <= k < |words| ==> Fits(g, words[k], f)
  }

  /** `[word for word in self.words if self.match_feedback(guess, word, feedback)]` */
  function LegacyFilter(words: seq<Word>, g: Word, f: seq<int>): seq<Word>
    requires AllFit(words, g, f)
  {
    if words == [] then []
    else (if LegacyConsistent(g, words[0], f) then [words[0]] else []) + LegacyFilter(words[1..], g, f)
  }

  lemma {:induction false} LegacyFilterSnoc(words: seq<Word>, x: Word, g: Word, f: seq<int>)
    requires AllFit(words, g, f) && Fits(g, x, f)
    ensures AllFit(words + [x], g, f)
    ensures LegacyFilter(words + [x], g, f) == LegacyFilter(words, g, f) + (if LegacyConsistent(g, x, f) then [x] else [])
  {
    assert AllFit(words + [x], g, f);
    if words == [] {
      assert LegacyFilter([x], g, f) == (if LegacyConsistent(g, x, f) then [x] else []) + LegacyFilter([], g, f);
    } else {
      LegacyFilterSnoc(words[1..], x, g, f);
      assert (words + [x])[0] == words[0];
      assert (words + [x])[1..] == words[1..] + [x];
    }
  }

  /** Filtering keeps exactly the accepted words, each as often as before,
      in their original order, so the list never grows. */
  lemma {:induction false} LegacyFilterKeeps(words: seq<Word>, g: Word, f: seq<int>)
    requires AllFit(words, g, f)
    ensures |LegacyFilter(words, g, f)| <= |words|
    ensures IsSubsequence(LegacyFilter(words, g, f), words)
    ensures forall w :: Occ(LegacyFilter(words, g, f), w) == (if w in words && LegacyConsistent(g, w, f) then Occ(words, w) else 0)
  {
    if words != [] {
      var rest := LegacyFilter(words[1..], g, f);
      LegacyFilterKeeps(words[1..], g, f);
      assert words == [words[0]] + words[1..];
      forall w ensures Occ(LegacyFilter(words, g, f), w) == (if w in words && LegacyConsistent(g, w, f) then Occ(words, w) else 0) {
        OccAppend([words[0]], words[1..], w);
        SingletonOcc(words[0], w);
        OccMember(words, w);
        OccMember(words[1..], w);
        if LegacyConsistent(g, words[0], f) {
          assert LegacyFilter(words, g, f) == [words[0]] + rest;
          OccAppend([words[0]], rest, w);
        } else {
          assert LegacyFilter(words, g, f) == rest;
        }
      }
      if LegacyConsistent(g, words[0], f) {
        var kept := [words[0]] + rest;
        assert LegacyFilter(words, g, f) == kept;
        assert kept[0] == words[0] && kept[1..] == rest;
      } else {
        assert LegacyFilter(words, g, f) == rest;
      }
    }
  }

  /* ---------------------------------------------------------------------
     `Solver.make_guess`.
     --------------------------------------------------------------------- */

  /** `"".join(words)` */
  function Join(words: seq<Word>): string
  {
    if words == [] then "" else words[0] + Join(words[1..])
  }

  /** Copies of `c` in all the words together. */
  function TotalOcc(words: seq<Word>, c: char): nat
  {
    if words == [] then 0 else Occ(words[0], c) + TotalOcc(words[1..], c)
  }

  /** `letter_frequencies = Counter("".join(self.words))` holds, for every
      letter, its occurrences summed over the remaining words. */
  lemma {:induction false} JoinOcc(words: seq<Word>, c: char)
    ensures Occ(Join(words), c) == TotalOcc(words, c)
  {
    if words != [] {
      JoinOcc(words[1..], c);
      OccAppend(words[0], Join(words[1..]), c);
    }
  }

  /** `set(word)`, as the distinct letters listed once each. */
  function Letters(w: string): seq<char>
  {
    if w == [] then [] else (if w[0] in w[1..] then [] else [w[0]]) + Letters(w[1..])
  }

  /** The list holds every letter of the word once and nothing else. */
  lemma {:induction false} LettersFacts(w: string)
    ensures forall c :: c in Letters(w) <==> c in w
    ensures forall i, j :: 0 <= i < j < |Letters(w)| ==> Letters(w)[i] != Letters(w)[j]
  {
    if w != [] {
      LettersFacts(w[1..]);
      assert w == [w[0]] + w[1..];
    }
  }

  /** `sum(letter_frequencies[letter] for letter in unique_letters)` */
  function SumFreq(joined: string, letters: seq<char>): nat
  {
    if letters == [] then 0 else Occ(joined, letters[0]) + SumFreq(joined, letters[1..])
  }

  /** `word_score(word)`: the frequency score plus twice the number of
      distinct letters. */
  function WordScore(words: seq<Word>, w: Word): nat
  {
    SumFreq(Join(words), Letters(w)) + 2 * |Letters(w)|
  }

  /** `max(self.words, key=word_score)`: the first word with the highest
      score. */
  function LegacyIndex(words: seq<Word>): (k: nat)
    requires words != []
    ensures k < |words|
    ensures forall j :: 0 <= j < |words| ==> WordScore(words, words[j]) <= WordScore(words, words[k])
    ensures forall j :: 0 <= j < k ==> WordScore(words, words[j]) < WordScore(words, words[k])
  {
    FirstMax(words, (w: Word) => WordScore(words, w) as int)
  }

  class Solver {
    var words: seq<Word>

    /** `Solver.__init__` */
    constructor (words: seq<Word>)
      ensures this.words == words
    {
      this.words := words;
    }

    /** `Solver.filter_words` */
    method FilterWords(guess: Word, feedback: seq<int>)
      requires AllFit(words, guess, feedback)
      modifies this
      ensures words == LegacyFilter(old(words), guess, feedback)
    {
      var kept: seq<Word> := [];
      var k := 0;
      while k < |words|
        invariant 0 <= k <= |words| && unchanged(this)
        invariant AllFit(words[..k], guess, feedback) && kept == LegacyFilter(words[..k], guess, feedback)
      {
        var ok := LegacyMatch(guess, words[k], feedback);
        LegacyFilterSnoc(words[..k], words[k], guess, feedback);
        assert words[..k + 1] == words[..k] + [words[k]];
        if ok {
          kept := kept + [words[k]];
        }
        k := k + 1;
      }
      assert words[..|words|] == words;
      words := kept;
    }

    /** `Solver.make_guess`: no guess without words, the only word when
        one is left, and otherwise the first word with the highest
        frequency-plus-diversity score. */
    method MakeGuess() returns (guess: Option<Word>)
      ensures guess.None? <==> words == []
      ensures |words| == 1 ==> guess == Some(words[0])
      ensures |words| > 1 ==> guess == Some(words[LegacyIndex(words)])
    {
      if words == [] {
        return None;
      }
      if |words| == 1 {
        return Some(words[0]);
      }
      return Some(words[LegacyIndex(words)]);
    }
  }
}
