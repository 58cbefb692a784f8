/** The three-tier faction synergy bonus shown beside each faction count. */
module Synergy {

  /** The bonus thresholds a faction count is displayed against. */
  predicate IsThreshold(u: int)
  {
    u == 4 || u == 6 || u == 12
  }

  /** `count <= 4 ? 4 : count <= 6 ? 6 : 12`: the tier a faction count is shown against. */
  function Tier(count: int): (t: int)
    ensures IsThreshold(t)
    ensures count <= 12 ==> count <= t
    ensures count > 12 ==> t == 12
    ensures forall u :: IsThreshold(u) && count <= u ==> t <= u
  {
    if count <= 4 then 4 else if count <= 6 then 6 else 12
  }

  /** A larger count is never shown against a smaller tier. */
  lemma TierMonotone(a: int, b: int)
    requires a <= b
    ensures Tier(a) <= Tier(b)
  {
  }
}
