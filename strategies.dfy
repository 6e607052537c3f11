/** The guess-construction strategies of solvers.py: the letter histogram of
    a column of candidates, the histogram of feedback patterns shared by the
    Bayesian and minimax solvers, the minimax choice, the Bayesian choice
    with its entropy left as a parameter, the fixed choice, and the
    letter-frequency heuristic. */
module Strategies {
  import opened Common
  import opened Feedback

  /** Every candidate has exactly `L` letters. */
  predicate Uniform(words: seq<Word>, L: nat)
  {
    forall k :: 0 <= k < |words| ==> |words[k]| == L
  }

  predicate HasColumn(words: seq<Word>, i: nat)
  {
    forall k :: 0 <= k < |words| ==> i < |words[k]|
  }

  /** The letters the candidates hold at position `i`, in list order. */
  function Column(words: seq<Word>, i: nat): seq<char>
    requires HasColumn(words, i)
  {
    seq(|words|, k requires 0 <= k < |words| => words[k][i])
  }

  /** `counts = defaultdict(int); for word in self.words: counts[word[i]] += 1`,
      the inner loop of both `get_counts` and `HeuristicSolver.construct_guess`. */
  method CountColumn(words: seq<Word>, i: nat) returns (counts: Counts<char>)
    requires HasColumn(words, i)
    ensures counts == Histogram(Column(words, i))
  {
    counts := [];
    ghost var col := Column(words, i);
    var k := 0;
    while k < |words|
      invariant 0 <= k <= |words|
      invariant counts == Histogram(col[..k])
    {
      assert col[..k + 1][..k] == col[..k];
      counts := AddTo(counts, words[k][i], 1);
      k := k + 1;
    }
    assert col[..|words|] == col;
  }

  /** A column has a single letter exactly when there are candidates and they
      all agree at that position. */
  lemma SingleLetterColumn(words: seq<Word>, i: nat)
    requires HasColumn(words, i)
    ensures |Histogram(Column(words, i))| == 1 <==> |words| > 0 && forall k :: 0 <= k < |words| ==> words[k][i] == words[0][i]
  {
    var col := Column(words, i);
    SingleKeyHistogram(col);
    assert forall k :: 0 <= k < |words| ==> col[k] == words[k][i];
  }

  /* ---------------------------------------------------------------------
     Feedback classes.
     --------------------------------------------------------------------- */

  /** The feedback each candidate would give to `g`, in list order. */
  function Scores(g: Word, words: seq<Word>): seq<seq<int>>
  {
    seq(|words|, k requires 0 <= k < |words| => Score(g, words[k]))
  }

  /** The loop shared by `compute_information_gain` and the minimax
      `construct_guess`: one count per distinct feedback pattern. */
  method FeedbackHistogram(guess: Word, words: seq<Word>) returns (hist: Counts<seq<int>>)
    ensures hist == Histogram(Scores(guess, words))
  {
    hist := [];
    ghost var scores := Scores(guess, words);
    var k := 0;
    while k < |words|
      invariant 0 <= k <= |words|
      invariant hist == Histogram(scores[..k])
    {
      var feedback := GetFeedback(guess, words[k]);
      assert scores[..k + 1][..k] == scores[..k];
      hist := AddTo(hist, feedback, 1);
      k := k + 1;
    }
    assert scores[..|words|] == scores;
  }

  /** The feedback classes of a guess partition the candidates: one positive
      class size per distinct feedback, adding up to the number of candidates,
      each equal to the number of candidates giving that feedback. */
  lemma FeedbackPartition(g: Word, words: seq<Word>)
    ensures forall i :: 0 <= i < |Histogram(Scores(g, words))| ==> Values(Histogram(Scores(g, words)))[i] > 0
    ensures Sum(Histogram(Scores(g, words))) == |words|
    ensures forall f :: Total(Histogram(Scores(g, words)), f) == Occ(Scores(g, words), f)
    ensures forall k :: 0 <= k < |words| ==> Score(g, words[k]) in Keys(Histogram(Scores(g, words)))
  {
    var s := Scores(g, words);
    HistogramFacts(s);
    forall k | 0 <= k < |words| ensures Score(g, words[k]) in Keys(Histogram(s)) {
      assert s[k] == Score(g, words[k]);
    }
  }

  /** `max(len(group) for group in feedback_groups.values())` */
  function WorstCase(g: Word, words: seq<Word>): nat
  {
    MaxCount(Histogram(Scores(g, words)))
  }

  /** The worst case of a guess is the size of its largest feedback class:
      no candidate shares its feedback with more candidates, one candidate
      shares it with exactly that many, and it lies between 1 and the number
      of candidates. */
  lemma WorstCaseFacts(g: Word, words: seq<Word>)
    requires words != []
    ensures forall k :: 0 <= k < |words| ==> Occ(Scores(g, words), Score(g, words[k])) <= WorstCase(g, words)
    ensures exists k :: 0 <= k < |words| && Occ(Scores(g, words), Score(g, words[k])) == WorstCase(g, words)
    ensures 1 <= WorstCase(g, words) <= |words|
  {
    var s := Scores(g, words);
    HistogramMax(s);
    assert forall k :: 0 <= k < |words| ==> s[k] == Score(g, words[k]);
  }

  /** The minimax choice: the first candidate whose worst case is smallest. */
  function MinimaxIndex(words: seq<Word>): (k: nat)
    requires words != []
    ensures k < |words|
    ensures forall j :: 0 <= j < |words| ==> WorstCase(words[k], words) <= WorstCase(words[j], words)
    ensures forall j :: 0 <= j < k ==> WorstCase(words[k], words) < WorstCase(words[j], words)
  {
    FirstMax(words, (g: Word) => -(WorstCase(g, words) as int))
  }

  /** Only one candidate is the first with the smallest worst case; `ws`
      lists the worst cases. */
  lemma MinimaxIndexUnique(words: seq<Word>, ws: seq<int>, b: nat)
    requires b < |words| == |ws|
    requires forall j {:trigger WorstCase(words[j], words)} :: 0 <= j < |words| ==> ws[j] == WorstCase(words[j], words)
    requires forall j :: 0 <= j < |words| ==> ws[b] <= ws[j]
    requires forall j :: 0 <= j < b ==> ws[b] < ws[j]
    ensures b == MinimaxIndex(words)
  {
    var m := MinimaxIndex(words);
    assert ws[m] == WorstCase(words[m], words) && ws[b] == WorstCase(words[b], words);
  }

  /** The body of the minimax loop for one guess: group the candidates by
      feedback and take the size of the largest group. */
  method GroupWorstCase(guess: Word, words: seq<Word>) returns (worst: nat)
    ensures worst == WorstCase(guess, words)
  {
    var hist := FeedbackHistogram(guess, words);
    worst := MaxCount(hist);
  }

  /** MinimaxSolver.construct_guess: scan the candidates, keeping the first
      one whose worst case beats every earlier one; `None` is `best_guess`
      before any candidate, paired with an infinite `min_worst_case`. */
  method MinimaxGuess(words: seq<Word>) returns (best: Option<Word>)
    ensures words == [] ==> best == None
    ensures words != [] ==> best == Some(words[MinimaxIndex(words)])
  {
    best := None;
    var minWorst := 0;
    ghost var ws: seq<int> := [];
    ghost var b := 0;
    var k := 0;
    while k < |words|
      invariant 0 <= k <= |words| && |ws| == k
      invariant forall j {:trigger WorstCase(words[j], words)} :: 0 <= j < k ==> ws[j] == WorstCase(words[j], words)
      invariant k == 0 ==> best == None
      invariant k > 0 ==> b < k && best == Some(words[b]) && minWorst == ws[b]
      invariant k > 0 ==> forall j :: 0 <= j < k ==> minWorst <= ws[j]
      invariant k > 0 ==> forall j :: 0 <= j < b ==> minWorst < ws[j]
    {
      var worst := GroupWorstCase(words[k], words);
      ws := ws + [worst];
      if best == None || worst < minWorst {
        minWorst, best, b := worst, Some(words[k]), k;
      }
      k := k + 1;
    }
    if words != [] {
      MinimaxIndexUnique(words, ws, b);
    }
  }

  /** `compute_information_gain`: the entropy of the feedback classes. The
      entropy is a floating-point value of the class sizes; it is a
      parameter here, applied to the class sizes in dictionary order. */
  function InformationGain(entropy: seq<nat> -> int, g: Word, words: seq<Word>): int
  {
    entropy(Values(Histogram(Scores(g, words))))
  }

  /** BayesianSolver.construct_guess: the first candidate with the largest
      information gain. */
  function BayesianIndex(entropy: seq<nat> -> int, words: seq<Word>): (k: nat)
    requires words != []
    ensures k < |words|
    ensures forall j :: 0 <= j < |words| ==> InformationGain(entropy, words[j], words) <= InformationGain(entropy, words[k], words)
    ensures forall j :: 0 <= j < k ==> InformationGain(entropy, words[j], words) < InformationGain(entropy, words[k], words)
  {
    FirstMax(words, g => InformationGain(entropy, g, words))
  }

  /** FixedSolver.construct_guess with its default `pos=2`: the middle of the
      list, rounding down. */
  function FixedIndex(words: seq<Word>): (k: nat)
    requires words != []
    ensures k < |words| && 2 * k <= |words| < 2 * k + 2
  {
    |words| / 2
  }

  /* ---------------------------------------------------------------------
     The letter-frequency heuristic.
     --------------------------------------------------------------------- */

  /** The positions `HeuristicSolver.construct_guess` skips once it has run:
      those already green and those where only one letter remains. */
  function Locked(words: seq<Word>, green: seq<bool>): (locked: seq<bool>)
    requires Uniform(words, |green|)
  {
    seq(|green|, i requires 0 <= i < |green| => green[i] || |Histogram(Column(words, i))| == 1)
  }

  /** A position ends up locked exactly when it was green or all candidates
      agree there; green positions stay green. */
  lemma LockedFacts(words: seq<Word>, green: seq<bool>)
    requires Uniform(words, |green|)
    ensures |Locked(words, green)| == |green|
    ensures forall i :: 0 <= i < |green| ==>
      (Locked(words, green)[i] <==> green[i] || (|words| > 0 && forall k :: 0 <= k < |words| ==> words[k][i] == words[0][i]))
  {
    forall i | 0 <= i < |green| {
      SingleLetterColumn(words, i);
    }
  }

  /** The table `counts_positions[i]`: the column histogram sorted by count,
      largest first; the source stores `None` at skipped positions, which
      are never read, and this model stores an empty table there. */
  function Table(words: seq<Word>, locked: seq<bool>, i: nat): Counts<char>
    requires Uniform(words, |locked|) && i < |locked|
  {
    if locked[i] then [] else SortByCount(Histogram(Column(words, i)), true)
  }

  /** `self.counts_overall` over the first `n` positions: every sorted
      table of a free position merged in, position by position. */
  function Overall(words: seq<Word>, green: seq<bool>, n: nat): Counts<char>
    requires Uniform(words, |green|) && n <= |green|
  {
    if n == 0 then []
    else if Locked(words, green)[n - 1] then Overall(words, green, n - 1)
    else AddAll(Overall(words, green, n - 1), Table(words, Locked(words, green), n - 1))
  }

  /** One more position of `Overall`. */
  lemma OverallStep(words: seq<Word>, green: seq<bool>, i: nat)
    requires Uniform(words, |green|) && i < |green|
    ensures !Locked(words, green)[i] ==> Overall(words, green, i + 1) == AddAll(Overall(words, green, i), Table(words, Locked(words, green), i))
    ensures Locked(words, green)[i] ==> Overall(words, green, i + 1) == Overall(words, green, i)
  {
  }

  /** Copies of `c` among the candidates' letters at the free positions
      before `n`. */
  function FreeOcc(words: seq<Word>, locked: seq<bool>, c: char, n: nat): nat
    requires Uniform(words, |locked|) && n <= |locked|
  {
    if n == 0 then 0
    else FreeOcc(words, locked, c, n - 1) + (if locked[n - 1] then 0 else Occ(Column(words, n - 1), c))
  }

  /** `counts_overall` is a dictionary holding, for every letter, its number
      of occurrences at the free positions. */
  lemma {:induction false} OverallTotals(words: seq<Word>, green: seq<bool>, n: nat)
    requires Uniform(words, |green|) && n <= |green|
    ensures DistinctKeys(Overall(words, green, n))
    ensures forall c :: Total(Overall(words, green, n), c) == FreeOcc(words, Locked(words, green), c, n)
  {
    if n > 0 {
      OverallTotals(words, green, n - 1);
      var locked := Locked(words, green);
      if !locked[n - 1] {
        var h := Histogram(Column(words, n - 1));
        HistogramFacts(Column(words, n - 1));
        SortKeys(h, true);
        AddAllFacts(Overall(words, green, n - 1), Table(words, locked, n - 1));
      }
    }
  }

  /** `compute_frequency(guess)` over the first `n` positions: for every free
      position, the count the position's table holds for the guess's letter
      there (0 when the letter is missing, as with a `defaultdict`). */
  function Frequency(tables: seq<Counts<char>>, locked: seq<bool>, w: Word, n: nat): nat
    requires n <= |tables| && n <= |locked| && n <= |w|
  {
    if n == 0 then 0
    else Frequency(tables, locked, w, n - 1) + (if locked[n - 1] then 0 else Total(tables[n - 1], w[n - 1]))
  }

  /** The tables of all positions. */
  function Tables(words: seq<Word>, locked: seq<bool>): (t: seq<Counts<char>>)
    requires Uniform(words, |locked|)
    ensures |t| == |locked|
  {
    seq(|locked|, i requires 0 <= i < |locked| => Table(words, locked, i))
  }

  /** Free positions before `n` where `u` and `w` have the same letter. */
  function Agreements(u: Word, w: Word, locked: seq<bool>, n: nat): nat
    requires n <= |u| && n <= |w| && n <= |locked|
  {
    if n == 0 then 0
    else Agreements(u, w, locked, n - 1) + (if !locked[n - 1] && u[n - 1] == w[n - 1] then 1 else 0)
  }

  /** Agreements of `w` with the first `m` candidates, added up. */
  function AllAgreements(words: seq<Word>, w: Word, locked: seq<bool>, n: nat, m: nat): nat
    requires Uniform(words, |locked|) && n <= |locked| && |w| == |locked| && m <= |words|
  {
    if m == 0 then 0
    else AllAgreements(words, w, locked, n, m - 1) + Agreements(words[m - 1], w, locked, n)
  }

  lemma {:induction false} AllAgreementsStep(words: seq<Word>, w: Word, locked: seq<bool>, n: nat, m: nat)
    requires Uniform(words, |locked|) && 0 < n <= |locked| && |w| == |locked| && m <= |words|
    ensures AllAgreements(words, w, locked, n, m) == AllAgreements(words, w, locked, n - 1, m)
      + (if locked[n - 1] then 0 else CountIn(Column(words, n - 1), w[n - 1], m))
  {
    if m > 0 {
      AllAgreementsStep(words, w, locked, n, m - 1);
    }
  }

  lemma {:induction false} NoAgreements(words: seq<Word>, w: Word, locked: seq<bool>, m: nat)
    requires Uniform(words, |locked|) && |w| == |locked| && m <= |words|
    ensures AllAgreements(words, w, locked, 0, m) == 0
  {
    if m > 0 {
      NoAgreements(words, w, locked, m - 1);
    }
  }

  /** The heuristic score of a word is the number of (candidate, free
      position) pairs at which the candidate has the word's letter. */
  lemma {:induction false} FrequencyIsAgreement(words: seq<Word>, locked: seq<bool>, w: Word, n: nat)
    requires Uniform(words, |locked|) && n <= |locked| && |w| == |locked|
    ensures Frequency(Tables(words, locked), locked, w, n) == AllAgreements(words, w, locked, n, |words|)
  {
    if n > 0 {
      var t := Tables(words, locked);
      FrequencyIsAgreement(words, locked, w, n - 1);
      AllAgreementsStep(words, w, locked, n, |words|);
      assert Frequency(t, locked, w, n) == Frequency(t, locked, w, n - 1) + (if locked[n - 1] then 0 else Total(t[n - 1], w[n - 1]));
      if !locked[n - 1] {
        var col := Column(words, n - 1);
        var h := Histogram(col);
        HistogramFacts(col);
        SortKeys(h, true);
        assert t[n - 1] == SortByCount(h, true);
        assert Total(t[n - 1], w[n - 1]) == Occ(col, w[n - 1]);
        assert |col| == |words|;
      }
    } else {
      NoAgreements(words, w, locked, |words|);
    }
  }

  /** `max(self.words, key=self.compute_frequency)` once the positions are
      locked: the first candidate with the highest frequency score. */
  function HeuristicIndex(words: seq<Word>, green: seq<bool>): (k: nat)
    requires words != [] && Uniform(words, |green|)
    ensures k < |words|
    ensures forall j :: 0 <= j < |words| ==>
      Frequency(Tables(words, Locked(words, green)), Locked(words, green), words[j], |green|)
        <= Frequency(Tables(words, Locked(words, green)), Locked(words, green), words[k], |green|)
    ensures forall j :: 0 <= j < k ==>
      Frequency(Tables(words, Locked(words, green)), Locked(words, green), words[j], |green|)
        < Frequency(Tables(words, Locked(words, green)), Locked(words, green), words[k], |green|)
  {
    var locked := Locked(words, green);
    var tables := Tables(words, locked);
    FirstMax(words, w requires |w| >= |green| => Frequency(tables, locked, w, |green|))
  }

  /** Only one candidate is the first with the highest frequency score;
      `fs` lists the scores. */
  lemma HeuristicIndexUnique(words: seq<Word>, green: seq<bool>, fs: seq<int>, b: nat)
    requires Uniform(words, |green|) && b < |words| == |fs|
    requires forall j {:trigger Frequency(Tables(words, Locked(words, green)), Locked(words, green), words[j], |green|)} :: 0 <= j < |words| ==>
      fs[j] == Frequency(Tables(words, Locked(words, green)), Locked(words, green), words[j], |green|)
    requires forall j :: 0 <= j < |words| ==> fs[j] <= fs[b]
    requires forall j :: 0 <= j < b ==> fs[j] < fs[b]
    ensures b == HeuristicIndex(words, green)
  {
    var m := HeuristicIndex(words, green);
    var locked := Locked(words, green);
    var tables := Tables(words, locked);
    assert fs[m] == Frequency(tables, locked, words[m], |green|);
    assert fs[b] == Frequency(tables, locked, words[b], |green|);
  }

  /** HeuristicSolver.compute_frequency. */
  method ComputeFrequency(tables: seq<Counts<char>>, locked: seq<bool>, guess: Word) returns (frequency: nat)
    requires |tables| == |locked| && |locked| <= |guess|
    ensures frequency == Frequency(tables, locked, guess, |locked|)
  {
    frequency := 0;
    var i := 0;
    while i < |locked|
      invariant 0 <= i <= |locked|
      invariant frequency == Frequency(tables, locked, guess, i)
    {
      if !locked[i] {
        frequency := frequency + Total(tables[i], guess[i]);
      }
      i := i + 1;
    }
  }
}
