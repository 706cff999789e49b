/**
 * The fare rule shared by MetroGraph.calculateFareWithDiscounts (Java) and
 * calculateFare (JavaScript): a base fare of 20, a per-distance rate banded by the
 * distance, a student factor 0.5 and a senior factor 0.6 applied one after the other,
 * and rounding to the nearest 0.5 with halves going up (`Math.round(x * 2) / 2.0`).
 * Amounts are exact reals; the floating-point rounding of the products is not modelled.
 */
module Fares {

  const BaseFare: real := 20.0
  const StudentFactor: real := 0.5
  const SeniorFactor: real := 0.6

  /** A multiple of 0.5: twice the amount is a whole number. */
  predicate IsHalfMultiple(x: real)
  {
    (2.0 * x).Floor as real == 2.0 * x
  }

  /** The zone rate per distance unit, by distance band. */
  function ZoneRate(distance: int): (rate: real)
    ensures 1.0 <= rate <= 2.5
    ensures distance <= 5 <==> rate == 1.0
    ensures distance > 21 <==> rate == 2.5
  {
    if distance <= 5 then 1.0
    else if distance <= 12 then 1.5
    else if distance <= 21 then 2.0
    else 2.5
  }

  /** `Math.round(x * 2) / 2.0`: the multiple of 0.5 nearest to `x`, halves rounded up. */
  function RoundToHalf(x: real): (r: real)
    ensures IsHalfMultiple(r)
    ensures x - 0.25 < r <= x + 0.25
  {
    (2.0 * x + 0.5).Floor as real / 2.0
  }

  /** The amount before rounding: base plus banded distance charge, then the discounts. */
  function DiscountedTotal(distance: int, isStudent: bool, isSenior: bool): real
  {
    var total := BaseFare + distance as real * ZoneRate(distance);
    var afterStudent := if isStudent then total * StudentFactor else total;
    if isSenior then afterStudent * SeniorFactor else afterStudent
  }

  /** The fare for a journey of `distance` units. */
  function Fare(distance: int, isStudent: bool, isSenior: bool): (f: real)
    ensures IsHalfMultiple(f)
    ensures DiscountedTotal(distance, isStudent, isSenior) - 0.25 < f <= DiscountedTotal(distance, isStudent, isSenior) + 0.25
    ensures 0 <= distance ==> 0.0 <= f
  {
    RoundToHalf(DiscountedTotal(distance, isStudent, isSenior))
  }

  /** Rounding keeps the order of its arguments. */
  lemma RoundToHalfMonotone(x: real, y: real)
    requires x <= y
    ensures RoundToHalf(x) <= RoundToHalf(y)
  {
    var a, b := 2.0 * x + 0.5, 2.0 * y + 0.5;
    assert a.Floor as real <= a <= b < b.Floor as real + 1.0;
    assert a.Floor <= b.Floor;
  }

  /** The undiscounted total grows with the distance: the bands' rates only go up. */
  lemma {:induction false} TotalMonotone(d1: int, d2: int)
    requires d1 <= d2
    ensures BaseFare + d1 as real * ZoneRate(d1) <= BaseFare + d2 as real * ZoneRate(d2)
  {
    var r1, r2 := ZoneRate(d1), ZoneRate(d2);
    if d1 < 0 {
      if d2 < 0 {
        assert r1 == 1.0 && r2 == 1.0;
      } else {
        assert d1 as real * r1 < 0.0 <= d2 as real * r2;
      }
    } else {
      assert r1 <= r2;
      assert d1 as real * r1 <= d2 as real * r1;
      assert d2 as real * r1 <= d2 as real * r2;
    }
  }

  /** A longer journey never costs less, for every combination of discounts. */
  lemma FareMonotone(d1: int, d2: int, isStudent: bool, isSenior: bool)
    requires d1 <= d2
    ensures Fare(d1, isStudent, isSenior) <= Fare(d2, isStudent, isSenior)
  {
    TotalMonotone(d1, d2);
    RoundToHalfMonotone(DiscountedTotal(d1, isStudent, isSenior), DiscountedTotal(d2, isStudent, isSenior));
  }

  /**
   * Neither discount raises the fare: with the other flag fixed, a student pays at most
   * the full fare and so does a senior; so both together pay at most either one alone.
   */
  lemma DiscountsNeverRaise(distance: int, isStudent: bool, isSenior: bool)
    requires 0 <= distance
    ensures Fare(distance, true, isSenior) <= Fare(distance, false, isSenior)
    ensures Fare(distance, isStudent, true) <= Fare(distance, isStudent, false)
  {
    var total := BaseFare + distance as real * ZoneRate(distance);
    assert 0.0 <= total;
    RoundToHalfMonotone(DiscountedTotal(distance, true, isSenior), DiscountedTotal(distance, false, isSenior));
    RoundToHalfMonotone(DiscountedTotal(distance, isStudent, true), DiscountedTotal(distance, isStudent, false));
  }

  /** Two worked fares: 24.0 for 4 units without discount, 16.0 for a student riding 8 units. */
  lemma WorkedFares()
    ensures Fare(4, false, false) == 24.0
    ensures Fare(8, true, false) == 16.0
  {
    assert DiscountedTotal(4, false, false) == 24.0;
    assert (2.0 * 24.0 + 0.5).Floor == 48;
    assert DiscountedTotal(8, true, false) == 16.0;
    assert (2.0 * 16.0 + 0.5).Floor == 32;
  }
}
