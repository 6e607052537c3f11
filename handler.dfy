/** The solver objects of solvers.py. `create(solver, handler)` builds a
    class from one strategy (BayesianSolver, MinimaxSolver, HeuristicSolver,
    FixedSolver) and one handler (Handler or PositionHandler). Method
    resolution puts the strategy first, so `construct_guess` and
    HeuristicSolver's `get_counts` come from the strategy, and `make_guess`
    comes from the handler. Here the two halves are the constants
    `strategy` and `kind` of one class `Handler`. */
module Solvers {
  import opened Common
  import opened Feedback
  import opened Strategies
  import opened Positions

  /** The strategy half of `create(solver, handler)`. The Bayesian entropy
      is a floating-point function of the class sizes and is a parameter
      here. */
  datatype Strategy = Bayesian(entropy: seq<nat> -> int) | Minimax | Heuristic | Fixed

  /** The handler half: `Handler` or `PositionHandler`. */
  datatype HandlerKind = Plain | Positional

  /** `construct_guess` on candidates that are not empty: the guess, then
      the green positions and `counts_overall` as the strategy leaves them.
      Only the heuristic changes those two. The guess is always a
      candidate. */
  function Construct(strategy: Strategy, words: seq<Word>, green: seq<bool>, overall: Counts<char>): (r: (Word, seq<bool>, Counts<char>))
    requires words != [] && Uniform(words, |green|)
    ensures r.0 in words && |r.0| == |green| && |r.1| == |green|
    ensures forall i :: 0 <= i < |green| && green[i] ==> r.1[i]
  {
    match strategy
    case Bayesian(entropy) => (words[BayesianIndex(entropy, words)], green, overall)
    case Minimax => (words[MinimaxIndex(words)], green, overall)
    case Fixed => (words[FixedIndex(words)], green, overall)
    case Heuristic => (words[HeuristicIndex(words, green)], Locked(words, green), Overall(words, green, |green|))
  }

  /** `self.get_counts()` as method resolution picks it: HeuristicSolver's
      returns `counts_overall`; PositionHandler's returns the counts of the
      last free position and locks every single-letter position. Returns
      the counts and the green positions afterwards. */
  function GetCounts(strategy: Strategy, words: seq<Word>, green: seq<bool>, overall: Counts<char>): (Counts<char>, seq<bool>)
    requires Uniform(words, |green|)
  {
    if strategy.Heuristic? then (overall, green)
    else (LastFreeCounts(words, green, |green|), Locked(words, green))
  }

  /** `make_guess` once the first guess has been handed out: the guess
      (`None` where the source raises IndexError on an empty candidate
      list), then the green positions and `counts_overall` afterwards. With
      at most two candidates the first is guessed; otherwise the strategy
      constructs a guess, and PositionHandler then fills its green
      positions. PositionHandler deletes letters from the dictionary it
      got, which for the heuristic is `counts_overall` itself. */
  function Propose(strategy: Strategy, kind: HandlerKind, words: seq<Word>, green: seq<bool>, overall: Counts<char>): (Option<Word>, seq<bool>, Counts<char>)
    requires Uniform(words, |green|)
  {
    if words == [] then (None, green, overall)
    else if |words| <= 2 then (Some(words[0]), green, overall)
    else
      var c := Construct(strategy, words, green, overall);
      if kind == Plain then (Some(c.0), c.1, c.2)
      else
        var counts := GetCounts(strategy, words, c.1, c.2);
        var fill := PositionFill(c.0, counts.0, counts.1);
        (Some(fill.0), counts.1, if strategy.Heuristic? then fill.1 else c.2)
  }

  /** What every proposal promises: there is a guess exactly when there
      are candidates, it has the candidates' length, green positions stay
      green, and without PositionHandler the guess is a candidate. */
  lemma ProposeFacts(strategy: Strategy, kind: HandlerKind, words: seq<Word>, green: seq<bool>, overall: Counts<char>)
    requires Uniform(words, |green|)
    ensures Propose(strategy, kind, words, green, overall).0.None? <==> words == []
    ensures Propose(strategy, kind, words, green, overall).0.Some? ==> |Propose(strategy, kind, words, green, overall).0.value| == |green|
    ensures |Propose(strategy, kind, words, green, overall).1| == |green|
    ensures forall i :: 0 <= i < |green| && green[i] ==> Propose(strategy, kind, words, green, overall).1[i]
    ensures kind == Plain && words != [] ==> Propose(strategy, kind, words, green, overall).0.value in words
  {
    if |words| > 2 && kind == Positional {
      var c := Construct(strategy, words, green, overall);
      var counts := GetCounts(strategy, words, c.1, c.2);
      FillPositions(c.0, counts.0, counts.1);
      if !strategy.Heuristic? {
        LockedFacts(words, c.1);
      }
    }
  }

  /** With PositionHandler, every position that is not green after
      `get_counts` keeps the letter of the constructed guess, which is a
      candidate. */
  lemma PositionalKeepsFreeLetters(strategy: Strategy, words: seq<Word>, green: seq<bool>, overall: Counts<char>)
    requires Uniform(words, |green|) && |words| > 2
    ensures var p := Propose(strategy, Positional, words, green, overall);
      forall i :: 0 <= i < |green| && !p.1[i] ==> p.0.value[i] == Construct(strategy, words, green, overall).0[i]
  {
    var c := Construct(strategy, words, green, overall);
    var counts := GetCounts(strategy, words, c.1, c.2);
    FillPositions(c.0, counts.0, counts.1);
    if !strategy.Heuristic? {
      LockedFacts(words, c.1);
    }
  }

  /** `for key, value in counts: self.counts_overall[key] += value` */
  method MergeCounts(overall: Counts<char>, items: Counts<char>) returns (r: Counts<char>)
    ensures r == AddAll(overall, items)
  {
    r := overall;
    var k := 0;
    while k < |items|
      invariant 0 <= k <= |items|
      invariant AddAll(r, items[k..]) == AddAll(overall, items)
    {
      assert items[k..][1..] == items[k + 1..];
      r := AddTo(r, items[k].0, items[k].1);
      k := k + 1;
    }
  }

  /** `for key, value in counts.items(): counts[key] += value` on a
      dictionary, each key visited once at its own place. */
  method DoubleCounts(counts: Counts<char>) returns (r: Counts<char>)
    ensures r == Double(counts)
  {
    r := counts;
    var k := 0;
    while k < |counts|
      invariant 0 <= k <= |counts| && |r| == |counts|
      invariant forall j :: 0 <= j < |counts| ==> r[j] == if j < k then (counts[j].0, 2 * counts[j].1) else counts[j]
    {
      r := r[k := (r[k].0, r[k].1 + counts[k].1)];
      k := k + 1;
    }
  }

  /** The first loop of HeuristicSolver.construct_guess: a position that is
      not green and where one letter remains turns green; every other free
      position gets its histogram sorted by count, largest first, which is
      merged into `counts_overall`. */
  method Tabulate(words: seq<Word>, green: seq<bool>) returns (locked: seq<bool>, overall: Counts<char>, tables: seq<Counts<char>>)
    requires Uniform(words, |green|)
    ensures locked == Locked(words, green)
    ensures overall == Overall(words, green, |green|)
    ensures tables == Tables(words, locked)
  {
    ghost var target := Locked(words, green);
    locked := green;
    tables := [];
    overall := [];
    var i := 0;
    while i < |green|
      invariant 0 <= i <= |green| && |tables| == i
      invariant |locked| == |green| && forall j :: 0 <= j < |green| ==> locked[j] == if j < i then target[j] else green[j]
      invariant overall == Overall(words, green, i)
      invariant forall j :: 0 <= j < i ==> tables[j] == Table(words, target, j)
    {
      var table;
      locked, overall, table := TabulateOne(words, green, i, locked, overall);
      tables := tables + [table];
      i := i + 1;
    }
    assert locked == target;
  }

  /** One position of that loop. */
  method TabulateOne(words: seq<Word>, green: seq<bool>, i: nat, locked: seq<bool>, overall: Counts<char>)
    returns (locked': seq<bool>, overall': Counts<char>, table: Counts<char>)
    requires Uniform(words, |green|) && i < |green| == |locked| && locked[i] == green[i]
    requires overall == Overall(words, green, i)
    ensures locked' == locked[i := Locked(words, green)[i]]
    ensures overall' == Overall(words, green, i + 1)
    ensures table == Table(words, Locked(words, green), i)
  {
    locked', overall', table := locked, overall, [];
    OverallStep(words, green, i);
    if !locked[i] {
      var counts := CountColumn(words, i);
      if |counts| == 1 {
        locked' := locked[i := true];
      } else {
        table := SortByCount(counts, true);
        overall' := MergeCounts(overall, table);
      }
    }
  }

  /** `max(self.words, key=self.compute_frequency)`: the scan keeps the
      first candidate whose score beats every earlier one. */
  method FrequencyArgmax(words: seq<Word>, tables: seq<Counts<char>>, locked: seq<bool>, ghost green: seq<bool>) returns (best: nat)
    requires words != [] && Uniform(words, |green|)
    requires locked == Locked(words, green) && tables == Tables(words, locked)
    ensures best == HeuristicIndex(words, green)
  {
    best := 0;
    var bestScore := ComputeFrequency(tables, locked, words[0]);
    ghost var scores := [bestScore];
    var k := 1;
    while k < |words|
      invariant 1 <= k <= |words| && |scores| == k && best < k
      invariant forall j {:trigger Frequency(tables, locked, words[j], |green|)} :: 0 <= j < k ==> scores[j] == Frequency(tables, locked, words[j], |green|)
      invariant bestScore == scores[best]
      invariant forall j :: 0 <= j < k ==> scores[j] <= bestScore
      invariant forall j :: 0 <= j < best ==> scores[j] < bestScore
    {
      var score := ComputeFrequency(tables, locked, words[k]);
      scores := scores + [score];
      if score > bestScore {
        best, bestScore := k, score;
      }
      k := k + 1;
    }
    HeuristicIndexUnique(words, green, scores, best);
  }

  class Handler {
    const db: seq<Word>
    const length: nat
    const strategy: Strategy
    const kind: HandlerKind
    var words: seq<Word>
    var greenPos: seq<bool>
    var isFirstGuess: bool
    var initGuess: Word
    var countsOverall: Counts<char>

    /** The word list is not empty and all its words have the length of the
        first; the candidates are words of the list; one green flag per
        position. */
    ghost predicate Valid()
      reads this
    {
      |db| > 0 && length == |db[0]| && Uniform(db, length) && Uniform(words, length) &&
      |greenPos| == length && forall k :: 0 <= k < |words| ==> words[k] in db
    }

    /** `Handler.__init__`: all words are candidates, no position is green,
        and the first guess is computed once and stored. */
    constructor (db: seq<Word>, strategy: Strategy, kind: HandlerKind)
      requires |db| > 0 && Uniform(db, |db[0]|)
      ensures Valid() && this.db == db && this.strategy == strategy && this.kind == kind
      ensures words == db && isFirstGuess
      ensures var p := Propose(strategy, kind, db, seq(|db[0]|, _ => false), []);
        p.0 == Some(initGuess) && greenPos == p.1 && countsOverall == p.2
    {
      this.db := db;
      this.strategy := strategy;
      this.kind := kind;
      length := |db[0]|;
      words := db;
      greenPos := seq(|db[0]|, _ => false);
      isFirstGuess := false;
      initGuess := [];
      countsOverall := [];
      new;
      ProposeFacts(strategy, kind, db, greenPos, countsOverall);
      var guess := MakeGuess();
      initGuess := guess.value;
      isFirstGuess := true;
    }

    /** `Handler.reset`: a new game over the whole word list. */
    method Reset()
      requires Valid()
      modifies this
      ensures Valid() && words == db && isFirstGuess && greenPos == seq(length, _ => false)
      ensures initGuess == old(initGuess) && countsOverall == old(countsOverall)
    {
      words := db;
      isFirstGuess := true;
      greenPos := seq(length, _ => false);
    }

    /** `Handler.filter_words`: keep the candidates the matcher accepts, in
        order, and turn green every position the feedback marks exact. */
    method FilterWords(guess: Word, feedback: seq<int>)
      requires Valid() && |feedback| >= length
      modifies this
      ensures Valid() && isFirstGuess == old(isFirstGuess) && initGuess == old(initGuess) && countsOverall == old(countsOverall)
      ensures words == Filter(old(words), guess, feedback)
      ensures |greenPos| == length && forall i :: 0 <= i < length ==> greenPos[i] == (feedback[i] == 1 || old(greenPos)[i])
    {
      var kept: seq<Word> := [];
      var k := 0;
      while k < |words|
        invariant 0 <= k <= |words| && unchanged(this)
        invariant kept == Filter(words[..k], guess, feedback)
      {
        var ok := MatchFeedback(guess, words[k], feedback);
        FilterSnoc(words[..k], words[k], guess, feedback);
        assert words[..k + 1] == words[..k] + [words[k]];
        if ok {
          kept := kept + [words[k]];
        }
        k := k + 1;
      }
      assert words[..|words|] == words;
      FilterKeeps(words, guess, feedback);
      forall j | 0 <= j < |kept| ensures kept[j] in words {
        OccMember(kept, kept[j]);
        OccMember(words, kept[j]);
      }
      var green := greenPos;
      words := kept;
      greenPos := seq(length, i requires 0 <= i < length => feedback[i] == 1 || green[i]);
    }

    /** `make_guess` of Handler or PositionHandler: the stored first guess
        once, then the proposal; `None` where the source raises IndexError
        on an empty candidate list. */
    method MakeGuess() returns (guess: Option<Word>)
      requires Valid()
      modifies this
      ensures Valid() && words == old(words) && initGuess == old(initGuess) && !isFirstGuess
      ensures old(isFirstGuess) ==> guess == Some(initGuess) && greenPos == old(greenPos) && countsOverall == old(countsOverall)
      ensures !old(isFirstGuess) ==> (guess, greenPos, countsOverall) == Propose(strategy, kind, words, old(greenPos), old(countsOverall))
    {
      if isFirstGuess {
        isFirstGuess := false;
        return Some(initGuess);
      }
      if |words| == 0 {
        return None;
      }
      if |words| <= 2 {
        return Some(words[0]);
      }
      ghost var c := Construct(strategy, words, greenPos, countsOverall);
      var constructed := ConstructGuess();
      if kind == Plain {
        return Some(constructed);
      }
      var filled := FillGuess(constructed);
      return Some(filled);
    }

    /** The part of PositionHandler.make_guess after `construct_guess`: get
        the counts, and when some position is green, delete the letters the
        guess uses at free positions and put the most frequent remaining
        letters at the green positions. */
    method FillGuess(constructed: Word) returns (filled: Word)
      requires Valid() && |constructed| == length
      modifies this
      ensures Valid() && words == old(words) && isFirstGuess == old(isFirstGuess) && initGuess == old(initGuess)
      ensures var counts := GetCounts(strategy, words, old(greenPos), old(countsOverall));
        var fill := PositionFill(constructed, counts.0, counts.1);
        filled == fill.0 && greenPos == counts.1 && countsOverall == if strategy.Heuristic? then fill.1 else old(countsOverall)
    {
      var counts;
      if strategy.Heuristic? {
        counts := countsOverall;
      } else {
        counts := PositionCounts();
      }
      filled := constructed;
      if true in greenPos {
        assert exists i :: 0 <= i < |greenPos| && greenPos[i];
        var pruned := PruneCounts(counts, constructed, greenPos);
        if strategy.Heuristic? {
          countsOverall := pruned;
        }
        filled := FillGreen(constructed, Keys(SortByCount(pruned, false)), greenPos);
      }
    }

    /** `construct_guess` of the strategy. */
    method ConstructGuess() returns (guess: Word)
      requires Valid() && |words| > 0
      modifies this
      ensures Valid() && words == old(words) && isFirstGuess == old(isFirstGuess) && initGuess == old(initGuess)
      ensures (guess, greenPos, countsOverall) == Construct(strategy, words, old(greenPos), old(countsOverall))
    {
      match strategy {
        case Bayesian(entropy) =>
          guess := words[BayesianIndex(entropy, words)];
        case Minimax =>
          var best := MinimaxGuess(words);
          guess := best.value;
        case Fixed =>
          guess := words[FixedIndex(words)];
        case Heuristic =>
          guess := HeuristicConstruct();
      }
    }

    /** HeuristicSolver.construct_guess: lock single-letter positions and
        tabulate the others, then take the first candidate with the highest
        frequency score. */
    method HeuristicConstruct() returns (guess: Word)
      requires Valid() && |words| > 0
      modifies this
      ensures Valid() && words == old(words) && isFirstGuess == old(isFirstGuess) && initGuess == old(initGuess)
      ensures greenPos == Locked(words, old(greenPos))
      ensures countsOverall == Overall(words, old(greenPos), length)
      ensures guess == words[HeuristicIndex(words, old(greenPos))]
    {
      ghost var green0 := greenPos;
      var tables := TabulatePositions();
      var best := FrequencyArgmax(words, tables, greenPos, green0);
      guess := words[best];
    }

    /** The first loop of HeuristicSolver.construct_guess, on this
        solver's fields. */
    method TabulatePositions() returns (tables: seq<Counts<char>>)
      requires Valid()
      modifies this
      ensures Valid() && words == old(words) && isFirstGuess == old(isFirstGuess) && initGuess == old(initGuess)
      ensures greenPos == Locked(words, old(greenPos))
      ensures countsOverall == Overall(words, old(greenPos), length)
      ensures tables == Tables(words, greenPos)
    {
      greenPos, countsOverall, tables := Tabulate(words, greenPos);
    }

    /** PositionHandler.get_counts: a fresh histogram at every free
        position, which locks the position when it has one letter and is
        doubled otherwise; the last one is returned. */
    method PositionCounts() returns (counts: Counts<char>)
      requires Valid()
      modifies this
      ensures Valid() && words == old(words) && isFirstGuess == old(isFirstGuess) && initGuess == old(initGuess)
      ensures countsOverall == old(countsOverall)
      ensures greenPos == Locked(words, old(greenPos))
      ensures counts == LastFreeCounts(words, old(greenPos), length)
    {
      ghost var green0 := greenPos;
      ghost var locked := Locked(words, green0);
      counts := [];
      var i := 0;
      while i < length
        invariant 0 <= i <= length && |greenPos| == length
        invariant Valid() && words == old(words) && isFirstGuess == old(isFirstGuess) && initGuess == old(initGuess)
        invariant countsOverall == old(countsOverall)
        invariant forall j :: 0 <= j < length ==> greenPos[j] == if j < i then locked[j] else green0[j]
        invariant counts == LastFreeCounts(words, green0, i)
      {
        if !greenPos[i] {
          counts := CountColumn(words, i);
          if |counts| == 1 {
            greenPos := greenPos[i := true];
          } else {
            counts := DoubleCounts(counts);
          }
        }
        i := i + 1;
      }
      assert greenPos == locked;
    }
  }
}
