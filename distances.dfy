/**
 * Tentative distances of both Dijkstra implementations. The Java code starts every
 * entry at Integer.MAX_VALUE and the JavaScript code at Infinity; both are `Infinite`
 * here, so adding a weight to it never wraps around.
 */
module Distances {

  datatype Distance = Finite(value: nat) | Infinite

  /** `d + w`, with infinity absorbing the weight. */
  function Extend(d: Distance, w: nat): (r: Distance)
    ensures r.Finite? <==> d.Finite?
    ensures r.Finite? ==> r.value == d.value + w
  {
    match d
    case Finite(x) => Finite(x + w)
    case Infinite => Infinite
  }

  /** The strict comparison `a < b`; infinity is below nothing. */
  predicate Shorter(a: Distance, b: Distance)
  {
    a.Finite? && (b.Infinite? || a.value < b.value)
  }

  /** `a <= b`. */
  predicate AtMost(a: Distance, b: Distance)
  {
    b.Infinite? || (a.Finite? && a.value <= b.value)
  }
}
