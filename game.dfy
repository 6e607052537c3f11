/** The console game of Tools/game.py: the same two-pass scorer as
    solvers.py, writing coloured squares instead of codes. */
module Game {
  import opened Common
  import opened Feedback

  /** 🟩, 🟨 and ⬜ */
  const Green: char := '\U{1F7E9}'
  const Yellow: char := '\U{1F7E8}'
  const White: char := '\U{2B1C}'

  /** The square of a feedback code. */
  function Tile(code: int): char
  {
    if code == 1 then Green else if code == 0 then Yellow else White
  }

  /** Feedback codes as squares, one character each. */
  function Paint(f: seq<int>): (s: string)
    ensures |s| == |f|
  {
    seq(|f|, i requires 0 <= i < |f| => Tile(f[i]))
  }

  /** Squares read back as codes: 🟩 is 1, 🟨 is 0, anything else -1. */
  function Decode(s: string): (f: seq<int>)
    ensures |f| == |s|
  {
    seq(|s|, i requires 0 <= i < |s| => if s[i] == Green then 1 else if s[i] == Yellow then 0 else -1)
  }

  predicate IsSquares(s: string)
  {
    forall i :: 0 <= i < |s| ==> s[i] == Green || s[i] == Yellow || s[i] == White
  }

  /** Painting and decoding are inverse on codes and on squares. */
  lemma PaintDecode(f: seq<int>, s: string)
    ensures ValidCodes(f) ==> Decode(Paint(f)) == f
    ensures IsSquares(Paint(f))
    ensures IsSquares(s) ==> Paint(Decode(s)) == s
  {
  }

  /** Tools/game.py `get_feedback`: mark exact matches 🟩 and count the
      other zipped letters of the word, then mark 🟨 the remaining ⬜
      positions whose letter still has a copy left, spending it. */
  method GameFeedback(guess: Word, word: Word) returns (feedback: string)
    ensures feedback == Paint(Score(guess, word))
  {
    feedback := seq(|guess|, _ => White);
    var counts: map<char, int> := map[];
    var n := ZipLen(guess, word);
    var i := 0;
    while i < n
      invariant 0 <= i <= n && |feedback| == |guess|
      invariant forall k :: 0 <= k < |guess| ==> feedback[k] == (if k < i && IsExact(guess, word, k) then Green else White)
      invariant forall c {:trigger Get(counts, c)} :: Get(counts, c) == Pool(guess, word, c, i)
    {
      ghost var before := counts;
      if guess[i] == word[i] {
        feedback := feedback[i := Green];
      } else {
        counts := counts[word[i] := Get(counts, word[i]) + 1];
      }
      forall c ensures Get(counts, c) == Pool(guess, word, c, i + 1) {
        assert Get(before, c) == Pool(guess, word, c, i);
      }
      i := i + 1;
    }
    ghost var spare := c => Pool(guess, word, c, n);
    ghost var marks := Marks(guess, word, spare);
    i := 0;
    while i < |guess|
      invariant 0 <= i <= |guess| && |feedback| == |guess|
      invariant forall k :: 0 <= k < i ==> feedback[k] == Tile(marks[k])
      invariant forall k :: i <= k < |guess| ==> feedback[k] == (if IsExact(guess, word, k) then Green else White)
      invariant forall c {:trigger Get(counts, c)} :: Get(counts, c) == Left(guess, word, spare, c, i)
    {
      SpendStep(guess, word, spare, i);
      ghost var before := counts;
      if feedback[i] == White && Get(counts, guess[i]) > 0 {
        feedback := feedback[i := Yellow];
        counts := counts[guess[i] := Get(counts, guess[i]) - 1];
      }
      forall c ensures Get(counts, c) == Left(guess, word, spare, c, i + 1) {
        assert Get(before, c) == Left(guess, word, spare, c, i);
      }
      i := i + 1;
    }
  }

  /** The squares have the guess's length; a square is 🟩 exactly at an
      exact match; read back they are the codes of solvers.py; and the 🟩
      and 🟨 squares on a letter never outnumber its copies in the word. */
  lemma GameFacts(g: Word, w: Word)
    ensures |Paint(Score(g, w))| == |g| && IsSquares(Paint(Score(g, w)))
    ensures forall i :: 0 <= i < |g| ==> (Paint(Score(g, w))[i] == Green <==> i < |w| && g[i] == w[i])
    ensures Decode(Paint(Score(g, w))) == Score(g, w)
    ensures forall c :: Credited(Decode(Paint(Score(g, w))), g, c, |g|) <= Occ(w, c)
  {
    ScoreShape(g, w);
    PaintDecode(Score(g, w), []);
    forall c ensures Credited(Score(g, w), g, c, |g|) <= Occ(w, c) {
      ScoreCreditsBounded(g, w, c);
    }
  }
}
