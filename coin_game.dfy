/**
 * The platformer's coin counter (platformer_2d/scripts/GameManager.cs): an
 * `int` score and the score label's text. A ghost count of the calls to
 * `AddPoint` is tied to the score by `Valid`.
 */
module CoinGame {
  import opened Octets
  import Decimal

  /** `"You collected " + score + " coins"`. */
  function CoinsText(score: int): (r: string)
    ensures |r| == 20 + |Decimal.IntString(score)|
    ensures r[14..|r| - 6] == Decimal.IntString(score)
  {
    "You collected " + (Decimal.IntString(score) + " coins")
  }

  /** The label determines the score. */
  lemma CoinsTextDetermines(a: int, b: int)
    requires CoinsText(a) == CoinsText(b)
    ensures a == b
  {
    var p := "You collected ";
    var x, y := Decimal.IntString(a) + " coins", Decimal.IntString(b) + " coins";
    assert x == CoinsText(a)[|p|..] == CoinsText(b)[|p|..] == y;
    Decimal.IntStringPrefixInjective(a, b, " coins", " coins");
  }

  class GameManager {
    var score: I32
    /** `currentScoreLabel.Text`. */
    var labelText: string
    ghost var calls: nat

    ghost predicate Valid()
      reads this
    {
      score == Wrap32(calls) && (calls > 0 ==> labelText == CoinsText(score))
    }

    /** The score starts at 0; the label shows what the scene gave it. */
    constructor (labelText: string)
      ensures Valid() && calls == 0 && score == 0 && this.labelText == labelText
    {
      score := 0;
      this.labelText := labelText;
      calls := 0;
    }

    /** `AddPoint()`: one more coin, and the label shows the new score. */
    method AddPoint()
      requires Valid()
      modifies this
      ensures Valid() && calls == old(calls) + 1
      ensures score == Inc32(old(score))
      ensures labelText == CoinsText(score)
    {
      IncWrap32(calls);
      score := Inc32(score);
      labelText := CoinsText(score);
      calls := calls + 1;
    }
  }

  /** After n calls from the start (fewer than 2^31), the score is n. */
  lemma ScoreCountsCalls(g: GameManager)
    requires g.Valid() && g.calls <= MAX_I32
    ensures g.score == g.calls
  {
    Wrap32Small(g.calls);
  }
}
