/**
 * The colour classification of the utilization strip (`colorForUtilHex` in
 * frontend/src/components/CustomerCard.jsx). The model returns the tier; the
 * tier-to-hex mapping belongs to the rendering layer.
 */
module Severity {

  /** The four tiers of the strip, lowest first (green, yellow, orange, red). */
  datatype Tier = Low | Moderate | High | Critical

  /** Position of a tier in the order low < moderate < high < critical. */
  function Rank(t: Tier): nat {
    match t
    case Low => 0
    case Moderate => 1
    case High => 2
    case Critical => 3
  }

  /** The least utilization that reaches a tier (each bound belongs to the higher tier). */
  function LowerBound(t: Tier): real
    requires t != Low
  {
    match t
    case Moderate => 0.3
    case High => 0.5
    case Critical => 0.8
  }

  /**
   * The chain of `>=` tests at 0.8, 0.5 and 0.3. Each tier is the half-open
   * interval between its own bound and the next one.
   */
  function Classify(u: real): (t: Tier)
    ensures t == Critical <==> 0.8 <= u
    ensures t == High <==> 0.5 <= u < 0.8
    ensures t == Moderate <==> 0.3 <= u < 0.5
    ensures t == Low <==> u < 0.3
  {
    if u >= 0.8 then Critical
    else if u >= 0.5 then High
    else if u >= 0.3 then Moderate
    else Low
  }

  /** A utilization reaches exactly the tiers up to its own: the tier is the highest one whose bound it meets. */
  lemma ClassifyIsHighestReached(u: real, t: Tier)
    ensures Rank(t) <= Rank(Classify(u)) <==> (t == Low || LowerBound(t) <= u)
  {
  }

  /** A larger utilization never gets a lower tier. */
  lemma ClassifyMonotone(u: real, v: real)
    requires u <= v
    ensures Rank(Classify(u)) <= Rank(Classify(v))
  {
  }
}
