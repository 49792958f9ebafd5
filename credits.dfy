/**
 * The credit arithmetic of the decay tick (scripts/credit_helper.rb):
 * `UPDATE Lights SET credits=credits-1 WHERE credits>0`, one light at a time.
 * A credit is the number of decay runs a light has left on; 0 is off and -1 means "on for ever".
 */
module Credits {

  const Forever: int := -1

  /** One tick applied to one stored credit. */
  function Decay(c: int): int
  {
    if c > 0 then c - 1 else c
  }

  /** The credit after `k` ticks. */
  function Ticks(c: int, k: nat): int
  {
    if k == 0 then c else Decay(Ticks(c, k - 1))
  }

  /** A tick never raises a credit, and moves a positive credit down by exactly one. */
  lemma DecayStep(c: int)
    ensures Decay(c) <= c
    ensures c > 0 ==> Decay(c) == c - 1
    ensures c <= 0 ==> Decay(c) == c
  {
  }

  /** A credit of n > 0 is positive for n - 1 ticks, reaches 0 on tick n and stays there. */
  lemma {:induction false} TicksFromPositive(n: int, k: nat)
    requires n > 0
    ensures Ticks(n, k) == if k < n then n - k else 0
  {
    if k > 0 {
      TicksFromPositive(n, k - 1);
    }
  }

  /** Credits 0 and -1 (and any other non-positive value) are never changed by ticks. */
  lemma {:induction false} TicksFixNonPositive(c: int, k: nat)
    requires c <= 0
    ensures Ticks(c, k) == c
  {
    if k > 0 {
      TicksFixNonPositive(c, k - 1);
    }
  }

  /** No credit ever increases under ticks. */
  lemma {:induction false} TicksNeverIncrease(c: int, k: nat)
    ensures Ticks(c, k) <= c
    ensures k > 0 ==> Ticks(c, k) <= Ticks(c, k - 1)
  {
    if k > 0 {
      TicksNeverIncrease(c, k - 1);
    }
  }
}
