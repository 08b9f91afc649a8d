/**
 * Pong's score label (pong_2d/scripts/ScoreManager.cs): two `int` counters
 * and the label text that shows them. The history of calls is kept as a
 * ghost list, to which `Valid` ties both counters.
 */
module PongScore {
  import opened Octets
  import Decimal

  /** `$"{playerScore} | {aiScore}"`. */
  function ScoreText(playerScore: int, aiScore: int): (r: string)
    ensures var k := |Decimal.IntString(playerScore)|;
      forall i :: 0 <= i < |r| ==> (r[i] == '|' <==> i == k + 1)
  {
    Decimal.IntString(playerScore) + (" | " + Decimal.IntString(aiScore))
  }

  /** The label shows the two scores unambiguously: it determines both. */
  lemma ScoreTextDetermines(p: int, a: int, q: int, b: int)
    requires ScoreText(p, a) == ScoreText(q, b)
    ensures p == q && a == b
  {
    var x, y := " | " + Decimal.IntString(a), " | " + Decimal.IntString(b);
    Decimal.IntStringPrefixInjective(p, q, x, y);
    assert Decimal.IntString(a) == x[3..] == y[3..] == Decimal.IntString(b);
    Decimal.IntStringInjective(a, b);
  }

  /** How many of the calls named that side. */
  function Count(sides: seq<string>, side: string): (n: nat)
    ensures n <= |sides|
  {
    if sides == [] then 0
    else Count(sides[..|sides| - 1], side) + (if sides[|sides| - 1] == side then 1 else 0)
  }

  /** Every call scores for at most one side. */
  lemma {:induction false} PointsNeverExceedCalls(sides: seq<string>)
    ensures Count(sides, "Player") + Count(sides, "AI") <= |sides|
    decreases |sides|
  {
    if sides != [] {
      PointsNeverExceedCalls(sides[..|sides| - 1]);
    }
  }

  lemma CountAppend(sides: seq<string>, side: string, s: string)
    ensures Count(sides + [s], side) == Count(sides, side) + (if s == side then 1 else 0)
  {
    assert (sides + [s])[..|sides|] == sides;
  }

  /** One more call keeps a side's score equal to its wrapped count of calls naming it. */
  lemma ScoreStep(sides: seq<string>, side: string, s: string, score: I32)
    requires score == Wrap32(Count(sides, side))
    ensures (if s == side then Inc32(score) else score) == Wrap32(Count(sides + [s], side))
  {
    CountAppend(sides, side, s);
    IncWrap32(Count(sides, side));
  }

  class ScoreManager {
    var playerScore: I32
    var aiScore: I32
    /** The `Label`'s `Text`. */
    var text: string
    ghost var sides: seq<string>

    /** The scores count the calls that named each side (as `int`s, which wrap). */
    ghost predicate Valid()
      reads this
    {
      && playerScore == Wrap32(Count(sides, "Player"))
      && aiScore == Wrap32(Count(sides, "AI"))
      && (sides != [] ==> text == ScoreText(playerScore, aiScore))
    }

    /** Both scores start at 0; the label shows what the scene gave it. */
    constructor (text: string)
      ensures Valid() && sides == []
      ensures playerScore == 0 && aiScore == 0 && this.text == text
    {
      playerScore := 0;
      aiScore := 0;
      this.text := text;
      sides := [];
    }

    /**
     * `OnBallUpdateScore(side)`: "Player" or "AI" scores one point for
     * that side only, any other string scores nothing, and the label is
     * rewritten from the new scores.
     */
    method OnBallUpdateScore(side: string)
      requires Valid()
      modifies this
      ensures Valid() && sides == old(sides) + [side]
      ensures playerScore == if side == "Player" then Inc32(old(playerScore)) else old(playerScore)
      ensures aiScore == if side == "AI" then Inc32(old(aiScore)) else old(aiScore)
      ensures text == ScoreText(playerScore, aiScore)
      ensures old(playerScore) < MAX_I32 && old(aiScore) < MAX_I32 ==>
        old(playerScore) <= playerScore && old(aiScore) <= aiScore
        && playerScore + aiScore <= old(playerScore) + old(aiScore) + 1
    {
      if side == "Player" {
        playerScore := Inc32(playerScore);
      } else if side == "AI" {
        aiScore := Inc32(aiScore);
      }
      text := ScoreText(playerScore, aiScore);
      ScoreStep(sides, "Player", side, old(playerScore));
      ScoreStep(sides, "AI", side, old(aiScore));
      sides := sides + [side];
    }
  }
}
