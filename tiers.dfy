/**
 * The status tier chosen for a dashboard cell (MassPing.py:136-142): the
 * placeholder 9999 is down, anything above the warning ratio is a warning,
 * everything else is up.
 */
module Tiers {
  import opened Devices

  /** The cell classes `downred`, `warnyellow` and `upgreen`. */
  datatype Tier = Down | Warning | Up

  function Classify(rtt: real): Tier {
    if rtt == Sentinel then Down
    else if rtt > WarningRatio then Warning
    else Up
  }

  /** The three tiers are exhaustive and exclusive: exactly 9999 is down,
      genuine reading or not; above 0.5 is a warning; the rest is up. */
  lemma ClassifyIff(rtt: real)
    ensures Classify(rtt) == Down <==> rtt == Sentinel
    ensures Classify(rtt) == Warning <==> rtt != Sentinel && rtt > WarningRatio
    ensures Classify(rtt) == Up <==> rtt != Sentinel && rtt <= WarningRatio
  {
  }

  function Severity(t: Tier): nat {
    match t
    case Up => 0
    case Warning => 1
    case Down => 2
  }

  /** Below the placeholder, a slower reading is never shown as healthier. */
  lemma ClassifyMonotone(x: real, y: real)
    requires x <= y < Sentinel
    ensures Severity(Classify(x)) <= Severity(Classify(y))
  {
  }
}
