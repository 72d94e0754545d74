/** A player's running score: profit and loss, risk violations and matches. */
module Scores {

  const TwoTo31: int := 0x8000_0000
  const TwoTo32: int := 0x1_0000_0000

  /** A value is representable as a 32-bit signed integer. */
  predicate IsInt32(x: int)
  {
    -TwoTo31 <= x < TwoTo31
  }

  /** The 32-bit two's-complement value congruent to `x`: what a Java `Integer` holds after
      arithmetic that overflows. */
  function Wrap32(x: int): (r: int)
    ensures IsInt32(r)
    ensures (r - x) % TwoTo32 == 0
    ensures IsInt32(x) ==> r == x
  {
    (x + TwoTo31) % TwoTo32 - TwoTo31
  }

  /** Incrementing the largest 32-bit value wraps to the smallest. */
  lemma IncrementWraps()
    ensures Wrap32(TwoTo31 - 1 + 1) == -TwoTo31
  {
  }

  class PlayerScore {
    var playerId: string
    var matches: int
    /** Profit and loss in price ticks (scale 4). */
    var pnl: int
    var violations: int

    /** The counters fit their 32-bit columns. */
    ghost predicate Valid()
      reads this
    {
      IsInt32(matches) && IsInt32(violations)
    }

    /** A new score starts with no matches, no P&L and no violations. */
    constructor (playerId: string)
      ensures this.playerId == playerId
      ensures matches == 0 && pnl == 0 && violations == 0
      ensures Valid()
    {
      this.playerId := playerId;
      matches := 0;
      pnl := 0;
      violations := 0;
    }

    method AddPnl(amount: int)
      requires Valid()
      modifies this`pnl
      ensures pnl == old(pnl) + amount
      ensures Valid()
    {
      pnl := pnl + amount;
    }

    /** Adds one violation; the 32-bit counter wraps at its maximum. */
    method IncrementViolations()
      requires Valid()
      modifies this`violations
      ensures violations == Wrap32(old(violations) + 1)
      ensures old(violations) < TwoTo31 - 1 ==> violations == old(violations) + 1
      ensures Valid()
    {
      violations := Wrap32(violations + 1);
    }

    /** Adds one match; the 32-bit counter wraps at its maximum. */
    method IncrementMatches()
      requires Valid()
      modifies this`matches
      ensures matches == Wrap32(old(matches) + 1)
      ensures old(matches) < TwoTo31 - 1 ==> matches == old(matches) + 1
      ensures Valid()
    {
      matches := Wrap32(matches + 1);
    }
  }
}
