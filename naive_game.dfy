/** The naive scorer of main.py: one square per zipped position, judged by
    membership alone, joined by single spaces. */
module NaiveGame {
  import opened Common
  import opened Feedback
  import opened Game

  /** The square at position i: 🟩 on an exact match, 🟨 when the letter
      occurs anywhere in the answer, ⬜ otherwise. */
  function Symbol(g: Word, a: Word, i: nat): char
    requires i < |g| && i < |a|
  {
    if g[i] == a[i] then Green else if g[i] in a then Yellow else White
  }

  /** One square per position of `zip(guess, answer)`. */
  function Symbols(g: Word, a: Word): (s: seq<char>)
    ensures |s| == ZipLen(g, a)
  {
    seq(ZipLen(g, a), i requires 0 <= i < ZipLen(g, a) => Symbol(g, a, i))
  }

  /** `" ".join(cs)`. */
  function JoinSpaced(cs: seq<char>): (s: string)
    ensures |cs| == 0 ==> s == []
    ensures |cs| > 0 ==> |s| == 2 * |cs| - 1
  {
    if |cs| <= 1 then cs else [cs[0], ' '] + JoinSpaced(cs[1..])
  }

  /** The characters of `cs` sit at the even positions of the joined
      string, with a space between each two of them. */
  lemma {:induction false} JoinSpacedLayout(cs: seq<char>)
    ensures forall i :: 0 <= i < |cs| ==> JoinSpaced(cs)[2 * i] == cs[i]
    ensures forall i :: 0 <= i < |cs| - 1 ==> JoinSpaced(cs)[2 * i + 1] == ' '
  {
    if |cs| > 1 {
      JoinSpacedLayout(cs[1..]);
      var s := JoinSpaced(cs);
      assert s == [cs[0], ' '] + JoinSpaced(cs[1..]);
      forall i | 1 <= i < |cs| ensures s[2 * i] == cs[i] {
        assert s[2 * i] == JoinSpaced(cs[1..])[2 * (i - 1)];
      }
      forall i | 1 <= i < |cs| - 1 ensures s[2 * i + 1] == ' ' {
        assert s[2 * i + 1] == JoinSpaced(cs[1..])[2 * (i - 1) + 1];
      }
    }
  }

  /** main.py `get_feedback`. */
  function NaiveFeedback(g: Word, a: Word): string
  {
    JoinSpaced(Symbols(g, a))
  }

  /** For equal-length inputs of length L >= 1 the output has 2L-1
      characters: the squares at even positions, spaces between them, and
      each square says exactly what its position's letter does. */
  lemma NaiveFacts(g: Word, a: Word)
    requires |g| == |a| >= 1
    ensures |NaiveFeedback(g, a)| == 2 * |g| - 1
    ensures forall i :: 0 <= i < |g| - 1 ==> NaiveFeedback(g, a)[2 * i + 1] == ' '
    ensures forall i :: 0 <= i < |g| ==> (NaiveFeedback(g, a)[2 * i] == Green <==> g[i] == a[i])
    ensures forall i :: 0 <= i < |g| ==> (NaiveFeedback(g, a)[2 * i] == Yellow <==> g[i] != a[i] && g[i] in a)
    ensures forall i :: 0 <= i < |g| ==> (NaiveFeedback(g, a)[2 * i] == White <==> g[i] !in a)
  {
    JoinSpacedLayout(Symbols(g, a));
  }

  /** Against the two-pass scorer of solvers.py: the squares agree on 🟩,
      and wherever the two-pass scorer gives 0 the naive one gives 🟨; the
      naive scorer never spends a letter, so it may also give 🟨 where the
      two-pass scorer gives -1. */
  lemma NaiveOverCredits(g: Word, a: Word)
    requires |g| == |a|
    ensures forall i :: 0 <= i < |g| ==> (Symbols(g, a)[i] == Green <==> Score(g, a)[i] == 1)
    ensures forall i :: 0 <= i < |g| && Score(g, a)[i] == 0 ==> Symbols(g, a)[i] == Yellow
  {
    ScoreShape(g, a);
    forall i | 0 <= i < |g| && Score(g, a)[i] == 0
      ensures g[i] in a
    {
      if g[i] !in a {
        ScoreAbsentLetter(g, a, i);
      }
    }
  }

  /** No multiplicity accounting: "AA" against "BA" gives "🟨 🟩", while
      the two-pass scorer gives -1 at position 0, the only "A" of the
      answer being taken by the exact match. */
  lemma NaiveIgnoresMultiplicity()
    ensures NaiveFeedback("AA", "BA") == [Yellow, ' ', Green]
    ensures Score("AA", "BA") == [-1, 1]
  {
    assert Symbols("AA", "BA") == [Yellow, Green];
    assert IsExact("AA", "BA", 1) && !IsExact("AA", "BA", 0);
    assert Pool("AA", "BA", 'A', 2) == 0 by {
      assert Pool("AA", "BA", 'A', 1) == 0;
    }
  }
}
